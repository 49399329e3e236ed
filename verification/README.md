# Startup launcher: launch sequencing and progress, modelled in Dafny

The launcher detects the screen resolution and reads `config.ini`.
It then starts, one after the other, the programs listed in the section named after that
resolution, falling back to the section `other`.

Each option of that section whose key is all digits is an entry of the form
`COMMAND[,wait=SECONDS]`, and entries run in the numeric order of their keys. After
starting an entry's program, the launcher sleeps its wait in steps of a tenth of a second.

When the waits add up to more than zero, a full-screen splash screen is shown before the
first program starts. It shows the share of the total wait that has elapsed, as a
percentage label, and is closed at the end.

This project models that launch plan:
- choosing the section;
- collecting and ordering the launch list;
- adding up the waits;
- parsing each entry, with the shell-style tokenizer and its fallback;
- the spawn-and-wait loop;
- the percentage and the label text.

It proves what the script guarantees about them.

Modules, one per file:

- `wrappers.dfy`: `Option` and `Result`.
- `numerals.dfy`: ASCII digit strings, `int(s)` on them and `str(n)`.
- `decimal.dfy`: the part of `float(text)` a wait value goes through.
- `tokenizer.dfy`: the `shlex.split` behaviour the command part needs. This covers
  whitespace separation, single and double quotes, and "No closing quotation".
- `entry.dfy`: the split on `,wait=`, the wait value and the command with its fallback.
  `ParseEntry` is the loop body's parse of one entry.
- `profile.dfy`: the section choice, the digit-key filter, the stable sort on the keys'
  integer values, and the loop that builds the launch list (`CollectEntries`).
- `progress.dfy`: the number of tenth-of-a-second steps, the clamped percentage and the
  label text `f"{int(percent)}%"`.
- `sequencer.dfy`: the loop that adds up the total wait (`TotalWait`), the launch loop as a
  specification (`Replay`), and the launch loop as a method (`Run`, with `Launch` and `Wait`
  for its body).
- `timeline.dfy`: what the launch loop's trace contains. This covers the spawns in order,
  one sleep per tick, the percentages shown, and where the loop stops.
- `script.dfy`: the whole script from the detected resolution and the loaded configuration
  to its exit status and trace. `Plan` is the specification and `Execute` the steps.

Things outside the model become parameters:
- Starting a program is an oracle, `spawnOk: nat -> bool`, which says for entry `i`
  whether `Popen` succeeds.
- The resolution and the parsed configuration are `Option` inputs.
- What the script does is a trace of events: `SplashShown`, `Spawned`, `SpawnFailed`,
  `Tick`, `Percent` and `SplashClosed`.

Time is exact:
- elapsed time is kept as a whole number of tenths;
- waits and percentages are `real`.

How the script treats unusual entries:
- An entry holding `,wait=` twice or more is not split at its last occurrence. The two-name
  unpacking `cmd_part, wait_val = app_entry.split(',wait=')` at `start.py:132` raises
  `ValueError`, which nothing catches. The script then ends with status 1, and
  `splash.close()` (`start.py:169-170`) is never reached, so the trace has no
  `SplashClosed` event (`ParseRejectsTwoMarkers`, `StopsAtMalformed`, `ExitStatus`).
- Before that, the total-wait loop has already added the entry's *middle* piece
  (`split(',wait=')[1]`) to the total (`WaitTerm`).
- Ticks also happen without a splash screen, which can occur when negative waits make the
  total 0 or less. The loop then sleeps but shows no percentage.

## Model

| member | source | states |
|---|---|---|
| Profile.SelectSection | start.py:98 | the section is the resolution when the configuration has it, `other` otherwise |
| Profile.DigitEntriesCount | start.py:102 | the key filter keeps each option with an all-digit key as often as it occurs, and no other option |
| Profile.InsertPermutes | start.py:102 | one insertion step adds exactly the inserted option to the list |
| Profile.SortPermutes | start.py:102 | sorting by key value returns a permutation of the options |
| Profile.InsertSorted | start.py:102 | inserting into a list in key order keeps it in key order |
| Profile.SortSorted | start.py:102 | the sorted list is in ascending order of the keys' integer values |
| Profile.InsertStable | start.py:102 | an insertion places the new option after every option with the same key value |
| Profile.SortStable | start.py:102 | `sorted(..., key=int)` is stable: options whose keys have equal value, such as "1" and "01", keep file order |
| Profile.NonEmptyValuesMembers | start.py:103-106 | a value is launched exactly when it is non-empty and some option carries it |
| Profile.CollectEntries | start.py:99-106 | the loop builds exactly the non-empty values of the sorted digit-keyed options, or nothing when the section does not exist |
| Profile.LaunchOrder | start.py:101-106 | the launch list is the non-empty values of the digit-keyed options, sorted by key value, a permutation of them, stable on equal keys |
| Profile.NumericOrderExample | start.py:101-106 | keys 3, bgcolor, 1, 7 (empty value) and 10 launch the values of 1, 3 and 10, in that order |
| Profile.ExampleSort | start.py:102 | keys 3, 1, 7 and 10 sort as 1, 3, 7, 10: by integer value, not as text, where "10" would come before "3" |
| Numerals.NatToDigits | start.py:69 | `str(n)` is a digit string without a superfluous leading zero, which `int` reads back as `n` |
| Numerals.DigitsRoundTrip | start.py:102 | a digit key without a superfluous leading zero is given back unchanged by `str(int(k))` |
| Decimal.ParseWholeNumber | start.py:134 | `float(str(n)) == n` |
| Decimal.ParseFormattedTenths | start.py:134 | a wait written with one decimal place, such as "2.5", reads as that exact number of tenths |
| Decimal.RejectsStrayCharacter | start.py:133-136 | a wait text holding a character outside the modelled number grammar (digits, point, sign, blanks) makes `float` fail, so the wait is 0 |
| Entry.JoinSplit | start.py:132 | joining the pieces with the marker gives the entry back, and no piece holds the marker |
| Entry.SplitJoin | start.py:132 | splitting marker-free pieces joined by the marker gives the pieces back |
| Entry.SplitSingle | start.py:131-132 | the split gives one piece exactly when the marker does not occur |
| Entry.Command | start.py:142-148 | the executable and arguments are the tokens when tokenizing succeeds with a token, and otherwise the whole command text with no arguments |
| Entry.ParseWithoutMarker | start.py:137-139 | without the marker, the whole entry is the command and the wait is 0 |
| Entry.ParseWithMarker | start.py:131-136 | with one marker, the text before it is the command and the text after it the wait, 0 when not a number |
| Entry.ParseRejectsTwoMarkers | start.py:131-132 | an entry is rejected exactly when it holds the marker twice |
| Entry.ParseRoundTrip | start.py:131-148 | a command line written from words, followed by the marker and a wait, parses back to those words and that wait |
| Tokenizer.TokenizeCommandLine | start.py:143 | tokenizing a command line built from words returns exactly those words |
| Tokenizer.UnclosedQuoteFails | start.py:142-148 | a single or double quote opened outside quotes (after any text, quoted words included) and never closed makes tokenizing fail, so the fallback applies |
| Tokenizer.ApostropheFails | start.py:142-148 | an apostrophe in a name such as `O'Neil.exe` is an unclosed quote, so the whole command part becomes the executable |
| Tokenizer.BlankTokenizesEmpty | start.py:143-148 | a blank command yields no token, so `parts[0]` fails and the fallback applies |
| Progress.Steps | start.py:158-159 | a positive wait gives its whole number of tenths as steps; a wait of 0 or less gives none |
| Progress.PercentOf | start.py:164 | the percentage lies in 0..100 and is 100 exactly when the elapsed time has reached the total |
| Progress.PercentMonotone | start.py:162-165 | more elapsed time never gives a smaller percentage |
| Progress.TwoEqualWaits | start.py:162-165 | with two one-second waits, the first ends at 50% and 100% is reached only at the twentieth tick |
| Progress.Truncate | start.py:69 | `int(x)` truncates toward zero |
| Progress.LabelOfPercent | start.py:69 | for 0..100 the label is one to three digits naming the whole part of the percentage, followed by '%' |
| Sequencer.TotalWait | start.py:113-119 | the loop's total is the sum of each entry's wait share |
| Sequencer.WaitTermAgrees | start.py:114-136 | for an entry the launch loop accepts, its share of the total is the wait the loop waits |
| Sequencer.TotalIsSumOfWaits | start.py:113-119 | when every entry is well formed, the total is the sum of the waits the launch loop uses |
| Sequencer.CrashIsFinal | start.py:132 | once an entry has failed to unpack, later entries change nothing |
| Sequencer.Wait | start.py:158-166 | the wait makes exactly the ticks of its steps, each followed by the percentage when there is a splash screen, and advances the elapsed tenths by the steps |
| Sequencer.Launch | start.py:150-166 | one accepted entry spawns once and then waits its steps |
| Sequencer.Run | start.py:128-166 | the loop's trace and failure agree with the specification `Replay` |
| Timeline.TickEventsSpawnNothing | start.py:157-166 | a wait starts no program |
| Timeline.TickEventsCount | start.py:158-162 | a wait of `n` steps sleeps `n` times |
| Timeline.TickEventsShown | start.py:160-165 | with a splash screen, each tick shows the percentage for the tenths elapsed so far |
| Timeline.TickEventsHidden | start.py:163 | without a splash screen, a wait shows no percentage |
| Timeline.RampRises | start.py:164 | the percentages of consecutive ticks stay in 0..100 and never go down |
| Timeline.NextSpawns | start.py:150-159 | an accepted entry adds one spawn, with its executable and arguments, and its steps to the elapsed tenths |
| Timeline.NextTicks | start.py:157-162 | each pass sleeps once per tenth it counts |
| Timeline.NextShown | start.py:160-165 | with a splash screen, each pass extends the percentages by those of its own ticks |
| Timeline.NextHidden | start.py:163 | without a splash screen, no pass shows a percentage |
| Timeline.CompleteRun | start.py:129-166 | without a malformed entry the loop runs to the end, spawning every entry once in order, failed starts included |
| Timeline.StopsAtMalformed | start.py:129-132 | the loop stops at the first entry holding the marker twice, having done exactly what the entries before it did |
| Timeline.CrashIffMalformed | start.py:131-132 | the loop fails exactly when some entry holds the marker twice |
| Timeline.TicksOfRun | start.py:157-162 | the loop sleeps once per tenth it counts |
| Timeline.PercentsOfRun | start.py:162-165 | with a splash screen, the percentages shown are those of 1, 2, ... tenths elapsed, up to the total counted |
| Timeline.NoSplashNoPercents | start.py:163 | without a splash screen, no percentage is shown |
| Timeline.ReplayLoopOnly | start.py:128-166 | the launch loop itself never shows or closes the splash screen |
| Timeline.PercentsRise | start.py:162-165 | one percentage per tick, all in 0..100, never going down |
| Script.Execute | start.py:88-170 | the steps of the script produce exactly the status and the trace of the plan |
| Script.ExitStatus | start.py:88-132 | the script exits 0 or 1, and 1 exactly when the resolution or configuration is missing or an entry holds the marker twice, for the modelled option values and waits |
| Script.NothingToLaunch | start.py:108-110 | with nothing to launch, the script exits 0 and does nothing |
| Script.NoSectionNoApps | start.py:98-106 | without the resolution's section and without `other`, nothing is launched |
| Script.FramedViews | start.py:121-170 | showing and closing the splash screen starts nothing, sleeps nothing and shows no percentage |
| Script.SplashShownFirst | start.py:121-125 | with something to launch, the script first shows the splash screen exactly when the total wait is positive |
| Script.SplashClosedLast | start.py:168-170 | the script ends by closing the splash screen exactly when there is one and no entry stopped the loop |
| Script.EveryEntryStarted | start.py:129-155 | when every entry is well formed, the script exits 0 after trying every entry once, in order |
| Script.ShownPercents | start.py:157-165 | the percentages shown never go down and stay in 0..100, and each label names the percentage's whole part followed by '%' |

## Left out

- The Qt user interface is not modelled: the splash screen's widgets, fonts, geometry,
  `processEvents` and the invisible window used for detection. The splash screen appears
  only as trace events, and `update_percent` only as the label text (`PercentLabel`).
- Detecting the resolution is not modelled (`get_current_screen_resolution`, lines 28-35).
  The detected resolution, or none, is an input.
- Reading `config.ini` with `configparser` is not modelled. This includes lower-casing of
  keys, the DEFAULT section, duplicate-key errors and value interpolation. The configuration is an input: a map
  from section names to their options in file order, or none when the file cannot be read.
- Logging (`log_message`) and `get_exe_dir` are I/O and are left out.
- Starting a program is not modelled: `subprocess.Popen` is an oracle. A failed start keeps
  the executable, but not the exception text that is logged.
- `time.sleep(0.1)` appears only as a `Tick` event.
- Floating-point arithmetic is replaced by exact reals. The drift of the repeated
  `elapsed_time += 0.1` is not modelled, and neither is the rounding of `int(w * 10)`,
  which in floats can differ by one from the exact number of tenths in either direction
  (one above, for instance, for "0.99999999999999999", which `float` rounds to 1.0).
- Decimal.ParseNumber: does not accept the exponent, underscore, `inf` and `nan` forms that
  `float` accepts, nor the Unicode decimal digits and Unicode whitespace (such as U+00A0 or
  U+001C) that `float` maps to ASCII before parsing. Those wait texts read as no number,
  which makes the wait 0.
- Tokenizer.Tokenize: covers separators and single and double quotes only. Backslash
  escapes and the rest of the POSIX `shlex` grammar are not modelled.
- Numerals.IsDigit: only ASCII digits count. `str.isdigit` also accepts other Unicode
  digits, which `int` may then reject.
- Script.ExitStatus: each option value stands for the text `config[section].get(k)` returns
  after configparser's interpolation (`start.py:104`), where `%%` reads as `%` and
  `%(name)s` is replaced by another option's value. The interpolation errors are not
  modelled: a value with a `%` followed by anything else, such as `%APPDATA%\app.exe`, or
  naming a missing option raises an uncaught error, so the real script exits 1 before
  starting anything, which ExitStatus does not list among its causes.
- Script.ExitStatus: a wait whose `float` times 10 is infinite (`inf`, `1e999`, or a
  number of 309 digits or more, among others) makes `int(wait_seconds * 10)` at `start.py:159` raise
  `OverflowError` right after that entry is spawned. Nothing catches it, so the real script
  exits 1 without reaching `splash.close()`. The model reads `inf` and `1e999` as no number
  (wait 0) and a long digit string as an exact real, and runs on. The "exactly when" of
  Script.ExitStatus and Timeline.CrashIffMalformed, and the "runs to the end" of
  Timeline.StopsAtMalformed, Timeline.CompleteRun and Script.EveryEntryStarted, are in
  terms of this modelled wait.
- Profile.CollectEntries: takes each value verbatim as the interpolated text, for the
  reason given under Script.ExitStatus.
- Exit status 1 for an entry holding the marker twice stands for the uncaught `ValueError`.
  Its traceback is not modelled.
