# wc: a model of the Ruby `wc` clone

This project models the counting and reporting core of `05.wc/main_wc.rb`, a
small `wc` clone written in Ruby. It covers the following:

- **`calculate_stats` and `count_words`.** The line count is the number of
  matches of Ruby's `\R`. The word count is the number of fields
  `split(/\s+/)` returns. The byte count is the UTF-8 length of the text.
  The result is a record in the fixed column order lines, words, bytes,
  holding only the selected metrics.
- **The default option list.** With no flag, the options are
  `[:bytes, :lines, :words]`.
- **The resolution loop over the path arguments.** It fills two
  insertion-ordered hashes keyed by path, `path_type` and `files_stats`.
- **The total.** It starts as a zero record and every stored record is
  added to it key by key.
- **`calculate_width`.**
- **`print_stats`.**
- **The report loop.** It prints diagnostics, rows and the `total` row.
- **`main`.** The piped-input branch and the usage line are modelled as
  well.

The file system is a value `map<string, Node>`: a path that is not a key
does not exist, and a `Node` is a directory or a file with its text.
Standard input is `Terminal` or `Piped(text)`. The program's output is a
list of `Line` values. `Render` gives the exact text that `print` and
`puts` write for each line, and `Output` concatenates them.

Modules, one per file:

| module | file | models |
|---|---|---|
| `Metrics` | metrics.dfy | metrics, records, the default options, the column order |
| `LineBreaks` | line_breaks.dfy | `text.scan(/\R/).size` |
| `Words` | words.dfy | `text.split(/\s+/).size` |
| `Utf8` | utf8.dfy | `text.bytesize` |
| `Stats` | stats.dfy | `calculate_stats` |
| `OrderedMaps` | ordered_maps.dfy | Ruby's insertion-ordered `Hash` |
| `Resolve` | resolve.dfy | the path loop |
| `Aggregate` | aggregate.dfy | the total |
| `Decimal` | decimal.dfy | `Integer#to_s`, `String#rjust` |
| `Report` | report.dfy | `calculate_width`, `print_stats`, the report, `main` |
| `Scenarios` | scenarios.dfy | worked invocations |
| `Optional` | optional.dfy | `Option` |

Details of the program's behaviour that the model reproduces as the code
has them:

- **Column order.** A record is always in the order lines, words, bytes.
  Neither the order of the flags nor the default order `bytes lines words`
  changes it, because `calculate_stats` inserts the keys in that order.
- **Width.** The width is computed from the total only, never from the
  individual records. The model proves that this still fits every row.
- **Repeated paths.** A repeated path argument collapses into one hash
  entry. It gets one row, at its first position, and its counts enter the
  total once. The `total` row still appears whenever two or more arguments
  were given, repetitions included.
- **Leading whitespace.** Text that starts with whitespace has an empty
  first field, which `split` keeps and which counts as a word. So `" a b"`
  has 3 words, while `""` and `"  "` have none.
- **Path ending in a newline.** `puts " #{path}"` adds no newline when the
  path itself ends with one.

## Model

| member | source | states |
|---|---|---|
| Metrics.EffectiveOptions | 05.wc/main_wc.rb:7 | The option list is never empty. A metric is in it exactly when no flag was given or that metric was flagged. Given flags are kept as they are. |
| Metrics.Selected | 05.wc/main_wc.rb:91-98 | A record's keys are exactly the chosen metrics, each once, in the column order lines, words, bytes. |
| Metrics.SelectedIsUnique | 05.wc/main_wc.rb:91-98 | Any column-ordered key list with the chosen metrics as members is the selected key list, so the keys depend only on which metrics were chosen. |
| Metrics.Zeros | 05.wc/main_wc.rb:36-37 | The directory record has exactly the selected keys, in column order, and every value is 0. |
| Stats.CalculateStats | 05.wc/main_wc.rb:91-98 | The record has exactly the selected keys, in column order. Each value is the count its metric stands for: line count, word count or byte size. An unselected metric has no entry, and `ValueOf` reads it as 0. |
| Stats.FlagOrderIrrelevant | 05.wc/main_wc.rb:91-98 | Two flag lists with the same members, in any order and with any repetition, give the same record. |
| LineBreaks.LineCount | 05.wc/main_wc.rb:94 | The number of `\R` matches is at most the text length. It is 0 exactly when the text contains no break character. |
| LineBreaks.LineCountAppend | 05.wc/main_wc.rb:94 | Counting a concatenation counts both halves, less one when a CR at the end of the first half and an LF at the start of the second form one CR LF match. |
| LineBreaks.LineCountIsBreakStarts | 05.wc/main_wc.rb:94 | The line count is the number of positions holding a break character that is not the LF of a CR LF pair, so CR LF counts once and every other break counts once. |
| Words.DropTrailingEmpty | 05.wc/main_wc.rb:101 | `split` keeps a prefix of the raw fields that does not end in an empty field, and every field it drops is empty. |
| Words.WordCountMatchesRuns | 05.wc/main_wc.rb:100-102 | The word count is 0 exactly when the text is empty or all `\s`. For text starting with a non-space it equals the number of maximal non-`\s` runs. Leading whitespace before a word adds exactly one (the empty first field). |
| Utf8.EncodeChar | 05.wc/main_wc.rb:96 | One character encodes to 1 byte below U+0080, 2 below U+0800, 3 below U+10000 and 4 otherwise, as section 3 of RFC 3629 lays out. |
| Utf8.Encode | 05.wc/main_wc.rb:96 | The byte size is between the character count and four times it. It equals the character count exactly when every character is ASCII. |
| Utf8.DecodeEncode | 05.wc/main_wc.rb:96 | A strict UTF-8 decoder, which refuses stray continuation bytes, overlong forms, surrogates and values above U+10FFFF, gives back the text's scalar values from the bytes the count measures. |
| Utf8.OnlyEncoding | 05.wc/main_wc.rb:96 | Any byte string that the strict decoder reads as the text is exactly the encoding, so the byte count is the length of the text's one well-formed UTF-8 form. |
| OrderedMaps.Put | 05.wc/main_wc.rb:29-41 | Assigning `h[k] = v` keeps a present key in its position and appends a new key at the end. Every other entry is unchanged, and the entry `(k, v)` is present afterwards. |
| OrderedMaps.PutNew | 05.wc/main_wc.rb:29-41 | Assigning under a new key appends exactly that entry. |
| OrderedMaps.PutSame | 05.wc/main_wc.rb:29-41 | Assigning again the value a key already holds leaves the hash unchanged. |
| OrderedMaps.Get | 05.wc/main_wc.rb:56 | `h[k]` for a present key returns a value stored under that key. |
| Resolve.StatsFor | 05.wc/main_wc.rb:34-41 | The record stored for an existing path, whether a directory or a file, has exactly the selected keys in column order. |
| Resolve.Distinct | 05.wc/main_wc.rb:29-42 | The hash keys are the path arguments without repetitions, with the same members as the arguments, in order of first occurrence: a path that comes before another in the result occurs in the arguments before every occurrence of the other. |
| Resolve.StatsTable | 05.wc/main_wc.rb:26-42 | `files_stats` holds exactly the given paths that exist. Each holds its stored record: zeros for a directory, the text's statistics for a file. |
| Resolve.ResolveAll | 05.wc/main_wc.rb:23-42 | After the loop, `path_type` maps every distinct argument to its type and `files_stats` maps every distinct existing one to its record, both in order of first occurrence. |
| Resolve.StepAgrees | 05.wc/main_wc.rb:29-42 | One iteration adds a new path to both tables (to `files_stats` only if it exists) and leaves both tables unchanged for a path seen before. |
| Resolve.StepSeen | 05.wc/main_wc.rb:29-41 | Re-storing a repeated path's type and record changes neither hash. |
| Aggregate.Bump | 05.wc/main_wc.rb:45 | `total[k] += v` keeps the keys. It adds `v` under `k` and changes no other value. |
| Aggregate.AddRecord | 05.wc/main_wc.rb:45 | Adding a record keeps the keys, and each value becomes the old value plus the record's value under the same key. |
| Aggregate.Total | 05.wc/main_wc.rb:44-45 | The total has exactly the selected keys in column order. Each value is the column sum over the stored records. |
| Aggregate.ColumnSumOfTable | 05.wc/main_wc.rb:44-45 | Summing a metric over the stored records is summing the contributions of the paths: nothing for a missing path, 0 for a directory, the file's count for a file. |
| Aggregate.PathSumPermutation | 05.wc/main_wc.rb:45 | Two repetition-free lists of the same paths give the same sum for every metric, whatever their order. |
| Aggregate.ContributionAtMostSum | 05.wc/main_wc.rb:45 | The sum over a list of paths is at least the contribution of each path in it. |
| Aggregate.TotalIsPathSum | 05.wc/main_wc.rb:26-45 | Each total value is the sum over the distinct paths of their contributions: nothing for a missing path, 0 for a directory, the file's count for a file. |
| Aggregate.TotalIgnoresOrder | 05.wc/main_wc.rb:29-45 | Two argument lists with the same members, in any order and with any repetition, give the same total. |
| Aggregate.DuplicateCountedOnce | 05.wc/main_wc.rb:29-45 | Repeating a path that was already given leaves the total unchanged. |
| Aggregate.PathValueAtMostTotal | 05.wc/main_wc.rb:44-45 | Each value in an existing path's record is at most the total's value in the same column. |
| Decimal.ToDecimal | 05.wc/main_wc.rb:87 | `to_s` on a count gives at least one digit, only digits, and no leading zero. Its length is the number of decimal digits of the count. |
| Decimal.ParseToDecimal | 05.wc/main_wc.rb:87 | Reading back the decimal spelling of a count gives the count. |
| Decimal.DecimalLengthMonotone | 05.wc/main_wc.rb:82 | A larger count never has a shorter spelling. |
| Decimal.PadLeft | 05.wc/main_wc.rb:87 | `rjust(width, ' ')` has length `max(len, width)`, ends with the string, and is spaces before it. |
| Decimal.ReadPadded | 05.wc/main_wc.rb:87 | A right-justified count, with its leading spaces dropped, reads back as the count. |
| Report.Width | 05.wc/main_wc.rb:81-83 | The width is at least 7 and exceeds the spelling length of every total value. It is 7 or one more than the longest spelling. |
| Report.PrintStats | 05.wc/main_wc.rb:85-89 | When every value fits, the row is `width + 1` characters per value. |
| Report.ReadBackRow | 05.wc/main_wc.rb:85-89 | Cutting a printed row into `width + 1`-character fields and reading each gives the record's values in order. |
| Report.Puts | 05.wc/main_wc.rb:57 | `puts s` writes `s` and then one newline, which it leaves out exactly when `s` already ends with one; the output always ends in a newline. |
| Report.DiagnosticText | 05.wc/main_wc.rb:48-54 | A missing path prints `wc: <path>: No such file or directory` and a directory prints `wc: <path>: Is a directory`, each followed by one newline. |
| Report.RowText | 05.wc/main_wc.rb:56-57 | A row prints its fields, then a space and the label, then a newline unless the label already ends with one. An unlabelled (piped) row prints its fields and a newline. |
| Report.Wc | 05.wc/main_wc.rb:5-63 | With a terminal and no arguments, the only line is `Need ARGV`. Piped input gives exactly one unlabelled row of the input's record, with the width `calculate_width` computes from that record, and every value fits it. With a terminal and arguments, the output is the lines of each distinct path in order of first occurrence, then the `total` row exactly when at least two arguments were given, all at the width computed from the total. |
| Report.ReportIsBlocks | 05.wc/main_wc.rb:48-63 | The report is the lines of each distinct path in order: a missing path gets only its diagnostic, a directory gets its diagnostic and a zero row, a file gets its row. Then comes the `total` row if and only if at least two arguments were given. |
| Report.BlockRows | 05.wc/main_wc.rb:48-58 | Every numeric row of the per-path lines is the stored record of an existing argument path, labelled with that path. |
| Report.RowsAligned | 05.wc/main_wc.rb:46-63 | In every output of the program, every row has width at least 7 and every value is spelled in fewer characters than the width, so each field is exactly `width` characters. |
| Report.PathRowFits | 05.wc/main_wc.rb:46-57 | The record of any existing argument path fits the width computed from the total alone. |
| Scenarios.AllColumns | 05.wc/main_wc.rb:91-98 | With the default options the record is lines, words, bytes, in that order, with their counts. |
| Scenarios.DefaultCounts | 05.wc/main_wc.rb:91-102 | `"a b\nc\n"` gives 2 lines, 3 words, 6 bytes. |
| Scenarios.LinesAndWordsOnly | 05.wc/main_wc.rb:91-102 | With `-l -w`, `"one two three\n"` gives two columns, lines then words: 1 and 3. |
| Scenarios.XyRecord | 05.wc/main_wc.rb:91-102 | `"x y\n"` gives 1 line, 2 words, 4 bytes. |
| Scenarios.OneArgument | 05.wc/main_wc.rb:60 | A single argument prints its own lines and no `total` row. |
| Scenarios.MissingFileAlone | 05.wc/main_wc.rb:48-52 | A single missing path prints exactly `wc: <path>: No such file or directory` and nothing else. |
| Scenarios.TwoFiles | 05.wc/main_wc.rb:44-63 | A file `"x y\n"` and an empty file print two rows of width 7, then a total of 1, 2 and 4. |
| Scenarios.DirectoryAndFile | 05.wc/main_wc.rb:34-63 | A directory and a file `"x y\n"` print the directory's diagnostic and zero row, then the file's row, then a total holding only the file's counts. |
| Scenarios.RepeatedPathTotal | 05.wc/main_wc.rb:29-45 | The total of a path given twice is that path's own record. |
| Scenarios.RepeatedPath | 05.wc/main_wc.rb:29-63 | A path given twice is reported once, followed by a `total` row repeating its counts. |

## Left out

- **`recieve_options`** (05.wc/main_wc.rb:66-79) is left out. It is OptionParser. The model takes its result as a list of metrics. An invalid flag, with its message and `exit`, happens before any counting.
- **The I/O calls are parameters of `Report.Wc`.** These are `$stdin.tty?`, `$stdin.read`, `File.exist?`, `File.directory?` and `File.read`. The file system is assumed not to change while the program runs. Unreadable files and read errors are not modelled.
- **`print` and `puts` are not effects.** The output is a list of lines, and `Report.Output` gives their text.
- **`String#scrub!`** (05.wc/main_wc.rb:92) is left out. Text is a sequence of Unicode scalar values, which is already valid. Invalid input bytes and their replacement are not modelled.
- **An empty metric list** is excluded by a precondition (`|opts| > 0`) on `Report.Report` and `Report.PipedLines`. In the program it makes `calculate_width` fail on `nil + 1`, but line 7 makes it unreachable, and `Report.Wc` always passes a non-empty list.
- **Ruby's `Hash`** is modelled as a list of key-value pairs. Only insertion order, overwrite and lookup are modelled.
- **Large counts.** Ruby integers are unbounded, and so are the model's.
