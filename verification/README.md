# csvrunner TemplateRunner in Dafny

A model of the template runner of `csvrunner`: a command-line tool that
reads CSV rows and runs a shell-command template once per row, with every
header name available to the command as a shell variable holding that
row's value.

The runner is bound to one template string and one header row.

- **Construction.** `NewTemplateRunner` and `init` do the following:
  - trim every header and keep an upper-cased copy;
  - index the trimmed names by column, where the last column with a name wins;
  - count the variable references of the template;
  - re-validate the raw header row against what was stored.
- **Validation.** `validate` compares a header row position by position. At
  the first position that differs it stops with a value mismatch, or with a
  case mismatch when the two differ only in letter case.
- **Lookup.** `mapper` looks a field up in the current record.
- **Running a record.** `Run` stores a record and starts the command.
  - On Windows it starts `powershell -c` with every `$name`/`${name}`
    rewritten to `$Env:name`.
  - Everywhere else it starts `sh -c` with the template as written.
  - The environment list it sets holds exactly one `header=value` entry per header; nothing is inherited.

The shell-variable pattern `\$\{?(\w+)\}?` is modelled as a hand-written
scanner. At a `$` it takes:
- a `{`, but only when a word character follows it;
- then the longest run of ASCII word characters;
- then a `}` when one follows.

Two quirks of the pattern are kept as the program has them:
- `$abc}` swallows the `}`;
- `${abc` matches without a closing brace.

The leftmost, non-overlapping search is proved equal to the unique
sequence of matches with those properties. The rewrite is proved to be
"copy the text between matches and replace each match".

## Layout

| file | module | contents |
|---|---|---|
| `wrappers.dfy` | `Wrappers` | `Option` |
| `text.dfy` | `Text` | the white-space set of `isWhiteSpace`, an ASCII `TrimSpace`, an ASCII `ToUpper` |
| `shellvars.dfy` | `ShellVars` | the pattern, the match search, the PowerShell rewrite |
| `tally.dfy` | `Tally` | name counts (the template-field counter) |
| `runner.dfy` | `CsvRunner` | the runner, construction, `validate`, `mapper`, `Run`, the planned environment list |
| `examples.dfy` | `RunnerExamples` | the cases of `csvrunner_test.go` as lemmas, and the pattern quirks |

Several things that are implicit in the program are parameters of the model:
- **Platform.** It is the string parameter `goos`, compared with `"windows"`
  as `runtime.GOOS` is.
- **Process.** Starting the process is the function parameter `exec`. It is
  given the planned `Command` and whether combined output is captured, and
  it returns the output and the process error.
- **Panics.** Go's index-out-of-range panic in `validate` is the explicit
  outcome `IndexPanic`.

## Model

| member | source | states |
|---|---|---|
| Text.IsWhiteSpace | csvrunner.go:80-88 | a character is white space exactly when it is space or one of HT, LF, VT, FF, CR |
| Text.TrimSpace | csvrunner.go:42 | the trimmed header starts and ends with a non-space character and is no longer than the header |
| Text.TrimSpaceIsTrim | csvrunner.go:42 | trimming removes a white-space prefix and a white-space suffix and nothing else |
| Text.TrimUnique | csvrunner.go:42 | any string obtained by removing a white-space prefix and suffix and starting and ending with non-space is the trim: the trim is uniquely determined |
| Text.TrimmedIsFixed | csvrunner.go:185 | a header without surrounding white space is its own trim, so re-trimming stored headers changes nothing |
| Text.TrimIdempotent | csvrunner.go:185 | trimming twice is trimming once |
| Text.AllSpaceTrimsEmpty | csvrunner.go:42 | a header of white space only trims to the empty name |
| Text.ToUpper | csvrunner.go:43 | upper-casing keeps the length and maps each letter a-z to A-Z, every other character to itself |
| ShellVars.MatchAt | csvrunner.go:25 | a match begins at a position exactly when a `$` stands there followed by a word character, or by `{` and a word character; it starts there and ends inside the text |
| ShellVars.MatchAtIsMatch | csvrunner.go:25 | the match found has the pattern's shape: optional `{`, the longest word, optional `}` |
| ShellVars.MatchDeterministic | csvrunner.go:25 | two matches of the pattern at the same position are the same match |
| ShellVars.WordRun | csvrunner.go:25 | the `\w+` part: the run at a position stays inside the text, holds only word characters, and stops at the end of the text or at a non-word character, so it is the longest run |
| ShellVars.WordRunIs | csvrunner.go:25 | the `\w+` run at a position is exactly the word characters up to the first non-word character |
| ShellVars.BracedReference | csvrunner.go:25 | `${word}` is one match covering the braces, capturing the word |
| ShellVars.UnclosedBraceReference | csvrunner.go:25 | `${word` with no closing brace still matches, capturing the word and ending after it |
| ShellVars.UnbracedReference | csvrunner.go:25 | `$word` followed by neither a word character nor `}` matches exactly `$word` |
| ShellVars.UnopenedBraceTaken | csvrunner.go:25 | `$word}` takes the `}` into the match although no `{` was opened |
| ShellVars.FindAllFrom | csvrunner.go:51 | the search from a position returns matches that lie after it, in order and without overlapping; `FindAllIsLeftmost` and `LeftmostScanUnique` fix which matches they are |
| ShellVars.FindAll | csvrunner.go:51 | `FindAllStringSubmatch(t, -1)`: the matches over the whole template are its leftmost, non-overlapping list of occurrences, which `LeftmostScanUnique` shows is unique |
| ShellVars.Names | csvrunner.go:52-53 | the capture group `m[1]` of every match: one name per match, in the same order |
| ShellVars.FindAllIsLeftmost | csvrunner.go:51 | the search returns matches in order, each a match of the pattern, each the leftmost one after the previous match, with no match left after the last |
| ShellVars.LeftmostScanUnique | csvrunner.go:51 | any sequence of matches with those leftmost, non-overlapping properties is the one the search returns |
| ShellVars.ScanAtEnd | csvrunner.go:51 | the search from the end of the text finds nothing |
| ShellVars.ScanTakesMatch | csvrunner.go:51 | a leftmost search from a position where a reference starts takes that reference first |
| ShellVars.ScanSkipsNonReference | csvrunner.go:51 | a leftmost search from a position where no reference starts is also one from the next position |
| ShellVars.FindAllAtMatch | csvrunner.go:51 | at a reference the search records it and resumes after it |
| ShellVars.FindAllAtOther | csvrunner.go:51 | where no reference starts the search moves on by one character |
| ShellVars.SkipsUntilDollar | csvrunner.go:51 | the search finds nothing in text without a `$` |
| ShellVars.SkipOne | csvrunner.go:51 | a character other than `$` starts no match, so the search from it finds what the search from the next character finds |
| ShellVars.SkipsThenFinds | csvrunner.go:51 | the search passes over text without `$` up to a match and records that match first |
| ShellVars.SkipThenBraced | csvrunner.go:51 | text without `$` followed by `${name}`: the first match found is that reference, braces included |
| ShellVars.SkipThenUnbraced | csvrunner.go:51 | text without `$` followed by `$name`, not followed by a word character or `}`: the first match found is `$name` |
| ShellVars.SkipToEnd | csvrunner.go:51 | the search finds nothing in a tail without `$` |
| ShellVars.ReplaceAllFrom | csvrunner.go:98 | `ReplaceAllString` from a position on; it has no contract of its own, and `ReplaceAllIsSplice` fixes its meaning as the splice of the search's matches |
| ShellVars.ToPowerShell | csvrunner.go:98 | the PowerShell command line is the template with every match of the search over the whole template replaced by `$Env:` plus its name, all other text copied |
| ShellVars.ReplaceAllIsSplice | csvrunner.go:98 | the PowerShell rewrite equals the text with every match of the search replaced by `$Env:` plus its name and all other text copied |
| ShellVars.SpliceAtMatch | csvrunner.go:98 | at a match the spliced text starts with `$Env:` and the name and continues after the match |
| ShellVars.SpliceAtOther | csvrunner.go:98 | where no match starts the spliced text copies the character and continues with the next |
| ShellVars.NoReferenceUnchanged | csvrunner.go:98 | a template in which no reference starts is passed to PowerShell unchanged |
| ShellVars.CopiesUntilDollar | csvrunner.go:98 | the rewrite copies text without a `$` verbatim |
| ShellVars.CopiesThenReplaces | csvrunner.go:98 | text without `$` up to a match is copied and the match becomes `$Env:` plus its name |
| ShellVars.CopyThenBraced | csvrunner.go:98 | text without `$` followed by `${name}` rewrites to the text, then `$Env:name`, then the rewrite of the rest |
| ShellVars.CopyThenUnbraced | csvrunner.go:98 | text without `$` followed by `$name`, not followed by a word character or `}`, rewrites to the text, then `$Env:name`, then the rest's rewrite |
| ShellVars.CopyToEnd | csvrunner.go:98 | a tail without `$` is copied to the end unchanged |
| ShellVars.BracedAfter | csvrunner.go:98 | with no `$` before `${name}`, a match of `name` with both braces begins just after the text |
| ShellVars.UnbracedAfter | csvrunner.go:98 | with no `$` before `$name`, a match of `name` begins just after the text |
| CsvRunner.FieldCounts | csvrunner.go:51-54 | the template-field counter applied to the names the search captures; it has no contract of its own, and `Tally.Count`, `Tally.CountTotal` and `CsvRunner.NormalisedContents` fix its meaning |
| Tally.Count | csvrunner.go:52-54 | the counts hold exactly the names that occur, each with its number of occurrences |
| Tally.CountStep | csvrunner.go:53 | counting one more name increments its entry (absent counts as zero) |
| Tally.TotalRemove | csvrunner.go:52-54 | the sum of the counts is any one count plus the sum of the rest |
| Tally.TotalIncrement | csvrunner.go:53 | one increment adds one to the sum of the counts |
| Tally.CountTotal | csvrunner.go:52-54 | the counts add up to the number of names counted |
| CsvRunner.TrimAll | csvrunner.go:41-44 | the stored header list has the input's length and position i holds the trim of header i |
| CsvRunner.UpperAll | csvrunner.go:43-45 | the upper-cased list has the same length and position i holds the upper case of entry i |
| CsvRunner.IndexMap | csvrunner.go:41-47 | the index holds exactly the trimmed names, each mapped to its last column (so below the header count) |
| CsvRunner.ValidateFrom | csvrunner.go:184-197 | from position i on: nil exactly when the row is no longer than the stored headers and every position trims to the stored header; panic exactly when every stored position agrees and the row is longer; otherwise the error of the first mismatching position |
| CsvRunner.Validate | csvrunner.go:183-199 | nil exactly when the row fits and every position trims to the stored header; a panic exactly when all stored positions agree but the row is longer; otherwise a value mismatch when the first differing position differs in more than case and a case mismatch when only in case |
| CsvRunner.FirstMismatchUnique | csvrunner.go:184-196 | there is only one first mismatching position |
| CsvRunner.ReportsAtFirstMismatch | csvrunner.go:184-196 | a row whose first mismatch is at k is rejected with the error that position k calls for |
| CsvRunner.ValidateStopsAtFirstMismatch | csvrunner.go:184-196 | the result depends only on the row up to the first mismatch: later positions, agreeing or not, do not change the error |
| CsvRunner.ValidatesOwnHeaders | csvrunner.go:183-199 | a constructed runner accepts its own trimmed headers |
| CsvRunner.Init | csvrunner.go:37-58 | init returns no error; it stores the trim of every header, its upper case and the last-column index, and counts the template's references |
| CsvRunner.NewTemplateRunner | csvrunner.go:201-219 | construction never fails, keeps the header count, stores the trim of each header, keeps the template, and takes the first optional record or none |
| CsvRunner.TrimmedHeadersKept | csvrunner.go:201-219 | headers without surrounding white space are stored exactly as given |
| CsvRunner.NormalisedContents | csvrunner.go:41-54 | a constructed runner's index holds exactly the trimmed names at their last columns; its field counts hold exactly the referenced names with their numbers of references, adding up to the number of references |
| CsvRunner.Mapper | csvrunner.go:60-68 | a lookup yields "" or a value of the record, and "" for a name that is not indexed |
| CsvRunner.LastColumnUnique | csvrunner.go:46 | a name has only one last column |
| CsvRunner.MapperFindsLastColumn | csvrunner.go:60-68 | in a constructed runner a field resolves, case-sensitively, to the record value in its last column when the record reaches that far, else to ""; a name that is no header resolves to "" |
| CsvRunner.Environ | csvrunner.go:125-129 | the planned environment list has one entry per header, entry i being header i, `=`, record value i |
| CsvRunner.Plan | csvrunner.go:95-130 | Windows starts `powershell -c` with the rewritten template, every other platform `sh -c` with the template as written; the environment is exactly the header entries in header order |
| CsvRunner.Run | csvrunner.go:90-181 | the record is stored and nothing else in the runner changes; without output the combined text is ""; with output it is what the process printed; the error is the process's |
| CsvRunner.RunRepeatable | csvrunner.go:90-91 | `Run` changes only the stored record: a second run of the same record on the returned runner plans the same command from an unchanged runner (hence, `exec` being a function, the same result), and a constructed runner stays constructed |
| CsvRunner.EntrySplits | csvrunner.go:127 | an entry `h=v` with no `=` in `h` splits back into `h` and `v` |
| CsvRunner.EnvLookup | csvrunner.go:130 | lookup in an environment list (last entry wins): a name has a value exactly when some entry has that name |
| CsvRunner.EnvironLookup | csvrunner.go:125-130 | for headers that contain no `=`, lookup in the planned environment list (last entry wins) gives the record value at the name's last column, or no value when no header has the name |
| CsvRunner.EnvAgreesWithMapper | csvrunner.go:125-130 | for a constructed runner whose headers contain no `=`, on every platform, lookup in the planned environment list (last entry wins) gives a header what `mapper` yields for the same record, and no value to a name that is no header |
| RunnerExamples.TwoReferences | csvrunner.go:98 | a template of text, `${n1}`, text, `$n2` and a tail without `$` rewrites to the same text with just the two references replaced |
| RunnerExamples.TwoReferencesFound | csvrunner.go:51 | the search over such a template captures `n1` then `n2` |
| RunnerExamples.PowerShellRewriteExample | csvrunner_test.go:16-23 | `echo "${name} is $age years old"` becomes `echo "$Env:name is $Env:age years old"` |
| RunnerExamples.FieldCountsExample | csvrunner.go:51-54 | the test template references `name` once and `age` once, and nothing else |
| RunnerExamples.TemplateFieldsExample | csvrunner.go:51-54 | a runner built on the test template holds those field counts |
| RunnerExamples.TestRunnerHeaders | csvrunner_test.go:52-57 | the test headers come through construction unchanged |
| RunnerExamples.MapperExamples | csvrunner_test.go:52-84 | with the test headers and record, `age` maps to `42`, `name` to `Randolf`, and `Name` to "" |
| RunnerExamples.ValidationHeaderExample | csvrunner_test.go:110-123 | the runner accepts its own header row |
| RunnerExamples.ValidationCaseMismatchExample | csvrunner_test.go:125-139 | `Name, Age, Gender` is a case mismatch, decided at the first position |
| RunnerExamples.ValidationValueMismatchExample | csvrunner_test.go:141-155 | `name, age, gender` is a value mismatch at the third position |
| RunnerExamples.TestRecordEnvironment | csvrunner_test.go:13 | the test record's environment is `name=Randolf`, `age=42`, `pronouns=they/them` |
| RunnerExamples.PlanExample | csvrunner_test.go:86-97 | on Linux the test record starts `sh -c` with the template and those three variables |
| RunnerExamples.WindowsPlanExample | csvrunner.go:95-102 | on Windows the test template starts `powershell -c` with the `$Env:` rewrite |
| RunnerExamples.UnopenedBraceConsumed | csvrunner.go:25 | `$abc}` is one match of five characters capturing `abc` |
| RunnerExamples.UnclosedBraceMatches | csvrunner.go:25 | `${abc` is one match of five characters capturing `abc` |
| RunnerExamples.EmptyBracesNoMatch | csvrunner.go:25 | `${}` does not match |

## Left out

- Process execution (`exec.Command`, `CombinedOutput`, `cmd.Run`) is the parameter `exec`. The shell's actual output is outside the model; this includes the `Randolf is 42 years old` line the run test expects, whose checked part is the planned command (`PlanExample`).
- The `StdOutErr` and `MultiWriter` branches of `Run` are left out because no value of the output flag reaches them. The commented-out code (`commandLineParse`, the shell-quote parser, the pipe-based reading) is left out too.
- The debug logging (`app.PrintDebug`) is left out because it writes to stderr and does not change any result.
- `runtime.GOOS` is the parameter `goos`.
- `app/cli/cli.go` (argument parsing, CSV reading, stdin detection, file opening) is not part of this model. It is process and file plumbing around the runner.
- Text.TrimSpace: Go's `strings.TrimSpace` trims Unicode white space. The model trims the six ASCII characters of `isWhiteSpace` (which the program declares but never calls), so it does not model NEL, NBSP and the other Unicode spaces.
- Text.ToUpper: Go's `strings.ToUpper` maps all Unicode letters. The model maps only `a`-`z`.
- `ErrorQuoteCountIsNegative` is declared but never used, so it has no counterpart.
- CsvRunner.Init requires empty index and field maps and equal-length header lists. It is only ever applied to the runner `NewTemplateRunner` just made, and these are that runner's properties. A second `init` on the same runner would add to the field counts; that is not modelled.
- CsvRunner.Run requires the record to have at least one value per header. With a shorter record the program panics while building the environment.
- CsvRunner.Plan has the same requirement as `Run`, for the same reason.
- CsvRunner.Environ has the same requirement as `Run`: it builds the list that panics on a short record.
- CsvRunner.EnvLookup gives the last entry with a name, as the Go process launcher keeps the last duplicate. The model stops at the list assigned to `cmd.Env` and does not describe what the child process sees. Four things the process launcher and the shell do are not modelled:
  - on Windows, entries whose names differ only in case are merged;
  - on Windows, `SYSTEMROOT` is added from the parent's environment when the list has no such entry, so one name that is no header has a value;
  - an entry containing a NUL character makes the launch fail;
  - `sh` imports only entries whose names are valid shell identifiers, so a header such as `first name` or `1abc` gives no shell variable although `mapper` returns its value.
- CsvRunner.EnvAgreesWithMapper relates `mapper` to the planned environment list only, not to the variables the shell ends up with, for the reasons given under `CsvRunner.EnvLookup`.
- CsvRunner.Mapper: `mapper` reads the record stored by the last `Run` (or construction). The model passes the runner value, so there is no aliasing between a caller's slice and the stored record.
- Integer widths are not modelled: column indexes and counts are unbounded naturals, and no header list is long enough for Go's `int` to overflow.
