# minipm core, modelled in Dafny

minipm is a small process supervisor. It keeps a registry file
(`~/.minipm/pm-list.txt`) with one entry per line: a name, a space, then
a shell command. Every 30 seconds the service reloads the registry. For
each entry whose command is not running, it launches a goroutine that
starts the command, waits, checks it, and retries until the command stays
up. Every start writes to a log file named after the entry and the time.

This project models that sequential core in four modules:

- `text.dfy` (module `Text`): the Go library functions the core relies on.
  - `strings.TrimSpace` covers the full Unicode White_Space set that
    `unicode.IsSpace` uses.
  - `strings.Split` with a one-character separator.
  - `strings.Join`.
  - `strings.Replace` with n = 1.
  - `bufio.ScanLines` applied to a whole input.
- `registry.dfy` (module `Registry`): the registry file.
  - `ParseLine` parses one scanned line and `ParseLines` a whole scan.
  - The method `LoadPmList` is the loop of `loadPmList`. The outcome of
    opening the file, the scanned lines and `scanner.Err()` are inputs.
  - `RunLine` is the line that `minipm run` appends, with
    `filepath.Base(os.Args[2])` supplied as the input `base`.
  - Round-trip lemmas relate writing and loading, including the case where
    the round trip breaks (see Findings).
- `logname.dfy` (module `LogName`): the two log file names.
  - `name-YYYY-MM-DD_HH-MM-SS.log` is opened by `Command.Start`.
  - `name-YYYY-MM-DD.log` is printed by `minipm list`.
  - Both are built from a date-time record through Go's zero-padding
    `appendInt`.
- `supervisor.dfy` (module `Supervisor`): the reconciliation loop.
  - `RunPass` picks the entries to launch.
  - `RetryCycle` is the retry loop of one goroutine.
  - `ReconcilePass` is one load-and-launch pass.
  - Start and liveness outcomes come from an oracle: a sequence of
    `Attempt`s. Each `Attempt` gives the clock reading and whether Start
    failed, the command exited early, or the command stayed up.
  - The 5-second and 2-second sleeps are the events `Backoff` and `Settle`.
  - The liveness check is `Probe`.

All paths below are relative to the repository root. The core is `main.go`.

## Model

| member | source | states |
|---|---|---|
| Text.TrimSpace | main.go:118 | The result is the slice of the input that starts after the leading whitespace. Everything after the result is whitespace. The result has no whitespace at either end. |
| Text.TrimSpaceOf | main.go:118 | Whitespace, then a trimmed middle, then whitespace always trims to exactly that middle. This pins TrimSpace down independently of its definition. |
| Text.TrimSpaceIdempotent | main.go:118 | Trimming an already trimmed string changes nothing. |
| Text.TrimSpaceDropCR | main.go:117-118 | Trimming gives the same result whether or not the scanner dropped a trailing '\r'. |
| Text.Split | main.go:123 | There is at least one piece. No piece contains the separator. Joining the pieces with the separator gives the input back. |
| Text.SplitFirst | main.go:123 | The first piece is the prefix of the input up to its first separator, or the whole input when there is no separator. |
| Text.IndexOf | main.go:126 | A found index is an occurrence of the pattern and no earlier index is one. When nothing is found, the pattern occurs nowhere. |
| Text.ReplacePrefix | main.go:126 | Replacing the first occurrence of a non-empty prefix with "" removes exactly that prefix. |
| Text.Join | main.go:198 | Join has no contract of its own. Text.SplitJoin and Text.Split state that it and Split are inverses. Registry.RunLineRoundTrip states what the joined command loads as. |
| Text.SplitJoin | main.go:123 | Joining separator-free pieces with the separator and splitting the result gives the pieces back. |
| Text.ReplaceFirst | main.go:126 | ReplaceFirst has no contract of its own. Text.ReplacePrefix states its effect when the target is a prefix, the only case the parse uses. |
| Text.ScanLines | main.go:116-117 | ScanLines has no contract of its own. Text.ScanOneLine and Text.ScanLinesAppend pin it down on newline-terminated input. |
| Text.ScanLinesAppend | main.go:116-117 | Scanning input that begins with complete lines gives the lines of the first part, then the lines of the rest. |
| Text.ScanOneLine | main.go:116-117 | A newline-terminated line without '\n' scans to that line, minus a trailing '\r'. |
| Registry.ParseLine | main.go:117-127 | A line yields an entry if and only if it is not blank after trimming. |
| Registry.ParseLineSpec | main.go:118-126 | The name is the trimmed line up to its first ' ', or the whole trimmed line, so it is non-empty and has no ' '. The command is the rest of the trimmed line, trimmed, because the one replacement hits the name at index 0. |
| Registry.ParseLinesIsNonBlankParsed | main.go:117-129 | There are as many entries as non-blank lines, in line order. The k-th entry is the parse of the k-th non-blank line. |
| Registry.ParseLines | main.go:116-130 | ParseLines has no contract of its own. Registry.ParseLinesIsNonBlankParsed and Registry.ParseLinesAppend pin it down. |
| Registry.ParseLinesAppend | main.go:116-130 | The entries of concatenated scans are the entries of each part, concatenated. |
| Registry.LoadPmList | main.go:103-133 | When the file opens, the result is the entries of every scanned line. A scan error comes back together with the entries read before it. A missing file gives no entries and no error. Any other open error gives no entries and the open error. |
| Registry.LoadOneLine | main.go:116-129 | One newline-terminated line loads as the entries of that line. |
| Registry.ParseNameAndCommand | main.go:118-126 | For a non-empty name without whitespace, `name cmd` parses to that name and the trimmed `cmd`, for every `cmd`. |
| Registry.LoadWrittenLine | main.go:199 | The line `name cmd\n` loads as exactly one entry, (name, trimmed cmd), for a non-empty name without whitespace and a `cmd` without a newline. |
| Registry.RunLine | main.go:198-199 | RunLine has no contract of its own. Registry.RunLineRoundTrip states what the line loads back as. |
| Registry.RunLineRoundTrip | main.go:198-199 | The line `minipm run` writes loads back as one entry: the name is `base` and the command is the joined arguments, trimmed. This needs a non-empty `base` without whitespace and no newline in the arguments. |
| Registry.AppendThenLoad | main.go:192-199 | Appending a run line to a registry of complete lines adds exactly that entry after the existing ones. The file still ends in a newline. |
| Registry.QuotedArgumentBreaksRoundTrip | main.go:179 | A quoted two-word argument `w1 w2` without '/' is its own last path element, so `filepath.Base` keeps its space. It then loads as the entry (w1, `w2 w1 w2`), which is not the command that was asked for. |
| Registry.HelpExampleBreaksRoundTrip | main.go:179 | The usage example `minipm run "python3 myscript.py"` loads as the entry named python3 with command `myscript.py python3 myscript.py`. |
| Registry.FirstField | main.go:199 | The corrected name has no whitespace, and it is empty only for an all-whitespace `base`. |
| Registry.FixedRunLineRoundTrip | main.go:198-199 | With the corrected line, the round trip holds for every `base` that is not all whitespace. The command is exactly the joined arguments, trimmed. |
| Registry.FixedQuotedArgument | main.go:179 | With the corrected line, the usage example's shape loads as the command that was asked for, named after its first word. |
| LogName.Decimal | main.go:89 | Padded decimal output has at least one digit, at least the field width, and only digits. |
| LogName.DecimalValue | main.go:89 | Reading the padded digits back gives the number. |
| LogName.DecimalWidth | main.go:89 | A number below 10^width is printed in exactly `width` digits. |
| LogName.AppendInt | main.go:89 | AppendInt has no contract of its own. LogName.Decimal, LogName.DecimalValue and LogName.YearEndsInDigits state its padding and value. |
| LogName.Stamp | main.go:89 | Stamp has no contract of its own. LogName.StampRoundTrip states that it reads back as the same time. |
| LogName.AttemptLogName | main.go:89 | AttemptLogName has no contract of its own. LogName.AttemptLogNameRoundTrip and LogName.AttemptLogNameInjective pin it down. |
| LogName.StampRoundTrip | main.go:89 | For a valid time with a year in 0..9999, the stamp has the fixed 19-character shape and reads back as the same time. |
| LogName.AttemptLogNameRoundTrip | main.go:89 | The entry name and the time can be read back from an attempt log name, for any name, dashes included, and for a valid time with a year in 0..9999. |
| LogName.AttemptLogNameInjective | main.go:89 | Distinct (name, second) pairs give distinct attempt log names, for every valid time whose year is not negative, wider than four digits included. |
| LogName.NameAndDigits | main.go:89 | A string that ends in a dash and then digits splits only one way into a name and those digits, whatever dashes and digits the name has. |
| LogName.TimeTailInjective | main.go:89 | The part of a log name after the year determines the month, day, hour, minute and second. |
| LogName.NegativeYearCollides | main.go:89 | For a negative year the injectivity fails: the name `n` in year -y gives the same log name as `n-` in year y. |
| LogName.AttemptLogNameUnderscore | main.go:89 | The character 13 places from the end of an attempt log name is '_'. |
| LogName.YearEndsInDigits | main.go:211 | A year printed with layout "2006" ends in four digits, negative years included. |
| LogName.DateStamp | main.go:211 | DateStamp has no contract of its own. LogName.ListLogNameDigit states where its year digits fall. |
| LogName.ListLogName | main.go:211 | ListLogName has no contract of its own. LogName.ListLogNameNeverAttempt states that it never equals an attempt log name. |
| LogName.ListLogNameDigit | main.go:211 | The character 13 places from the end of a list log name is a digit. |
| LogName.ListLogNameNeverAttempt | main.go:211 | The name `minipm list` prints never equals an attempt log name, whatever the names and times. |
| LogName.DateStampFields | main.go:211 | A valid date with a year in 0..9999 prints in ten characters and reads back as the same year, month and day. |
| LogName.AttemptLogNameStartsWithDay | main.go:89 | Every attempt log name begins with `name-YYYY-MM-DD_` for its own date. |
| LogName.DayLogPrefixMatches | main.go:211 | The prefix `name-YYYY-MM-DD_` of a day begins an attempt log name of the same entry if and only if that attempt started on that day. |
| Supervisor.AttemptEvents | main.go:50-65 | AttemptEvents has no contract of its own. Supervisor.AttemptCounts states its steps. |
| Supervisor.CycleTrace | main.go:49-66 | CycleTrace has no contract of its own. Supervisor.RetryCycle, Supervisor.CycleOrdered and Supervisor.CycleCounts pin it down. |
| Supervisor.RetryCycle | main.go:49-66 | The loop performs exactly the steps of CycleTrace. It ends settled if and only if some iteration found the command running. |
| Supervisor.AttemptCounts | main.go:50-65 | Each iteration has one Start at its own clock reading. A failed Start is followed by a backoff. Otherwise one wait and one check follow. |
| Supervisor.CycleCounts | main.go:49-66 | A cycle has one Start per iteration run, one backoff per failed Start, and one wait and one check per successful Start. |
| Supervisor.PrependOrdered | main.go:51-61 | An iteration that did not find the command running, placed before an ordered trace, keeps the trace ordered. |
| Supervisor.CycleOrdered | main.go:49-66 | Every failed Start is followed by one backoff and then the next Start or nothing, never a liveness check. Every successful Start is followed by one wait and exactly one check. A "not running" answer is followed by a Start without a backoff. A "running" answer ends the cycle. |
| Supervisor.CycleStartTimes | main.go:88-89 | The k-th Start of a cycle runs at the k-th iteration's clock reading, and there is one Start per iteration run. |
| Supervisor.CycleLogsDistinct | main.go:89 | Iterations that start in different seconds write to different log files, when no year is negative. |
| Supervisor.FailFailThenUp | main.go:49-66 | Fail, fail, then running gives exactly 3 Starts, 2 backoffs, 1 wait and 1 check, and nothing after the "running" answer. |
| Supervisor.RunPass | main.go:41-46 | A cycle is launched for exactly the entries whose IsRunning answer was "not running", each once, in list order. Each entry has its own answer, so two entries with the same command can be treated differently. |
| Supervisor.ReconcilePass | main.go:35-46 | The pass launches over whatever entries the load returned, even when the load also returned a scan error. It launches exactly the entries answered "not running", in order. |

## Left out

- Service lifecycle is concurrency and foreign library calls, so it is not modelled. This covers `program.Start`/`Stop`, service install/start/stop/run, the `exit` channel `select` and the 30-second outer loop (main.go:20-31, 70-74, 151-160, 219-255).
- Goroutine scheduling is not modelled. Each launched cycle is modelled as an independent sequential run.
- Real time is not modelled. `time.Sleep` and `time.After` are counted events, and `time.Now` is the `at` field of each attempt.
- `pgrep -f` and `sh -c` are external processes. They are the `running` answers, one per entry in the order the pass asks, and the per-attempt `Outcome`.
- Logging (`log.Printf`) is not modelled. Of the output of `minipm list`, only the log path is modelled (ListLogName).
- File I/O is replaced by inputs: the open outcome, the scanned lines and the scanner error.
  - `O_CREATE` semantics are not modelled.
  - `bufio.Scanner`'s 64 KB token limit is not modelled. An overlong line is just one of the possible `scanErr` values.
  - `os.Getenv("HOME")`, the directory bootstrap (main.go:106-114, 137-149, 192-196) and the log directory prefix are not modelled. `filepath.Join` cleans the path, so hand-edited names such as `a/b` and `a//b` can name the same file. The injectivity lemmas are about log names, not cleaned paths.
- Supervisor.RetryCycle: the Go loop has no bound. The model runs over a finite sequence of attempts. When no attempt finds the command running, the trace is the observed prefix of an unfinished cycle.
- Supervisor.RetryCycle: a Start that fails because its log file cannot be opened is one `StartFailed` outcome. That failure is not tied to the log name.
- LogName.AttemptLogNameInjective: proved only for non-negative years. Layout "2006" prints a negative year with a leading '-', so two names can collide (LogName.NegativeYearCollides).
- Supervisor.CycleLogsDistinct: proved only for non-negative years, for the same reason.
- LogName.ListLogNameNeverAttempt: holds for all years, but assumes valid calendar fields (month 1-12, day 1-31, hour, minute and second in range), as Go's `time.Time` guarantees.
- `filepath.Base` is not modelled. Its result is the input `base`.
- Strings are sequences of Unicode code points. Invalid UTF-8 is not modelled, and neither is the byte-level behaviour that comes with it.

## Findings

| source | as written | input that shows it | evidently intended | confidence | as-written member | corrected member |
|---|---|---|---|---|---|---|
| main.go:211 | `minipm list` prints the path `name-YYYY-MM-DD.log` for each entry. `Start` only ever creates `name-YYYY-MM-DD_HH-MM-SS.log` (main.go:89), so the printed path never names a log file that any start writes. | Entry `web` listed on 2024-05-01 prints a path ending in `web-2024-05-01.log`. Its start that day at 10:00:00 wrote `web-2024-05-01_10-00-00.log`. | The listing points at the entry's logs of that day. The prefix `name-YYYY-MM-DD_` does so: it begins an attempt log name of the entry exactly when the attempt started on that day. | medium; not executed | LogName.ListLogNameNeverAttempt | LogName.DayLogPrefixMatches |
| main.go:199 | The registry line writes `filepath.Base(os.Args[2])` as the name. When the last path element of a quoted first argument contains a space, `filepath.Base` keeps that space, so the name in the file is several words. | `minipm run "python3 myscript.py"`, the usage example at main.go:179. The written line is `python3 myscript.py python3 myscript.py`. It loads as name `python3` with command `myscript.py python3 myscript.py`. | The entry runs the command the user gave. This holds when the name is a single whitespace-free word (the first field of `base`), so the loaded command is exactly the joined arguments. | high; not executed | Registry.QuotedArgumentBreaksRoundTrip | Registry.FixedRunLineRoundTrip |
