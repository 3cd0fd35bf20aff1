# pass2csv entry parser and export loop, in Dafny

pass2csv exports a password-store style vault (one gpg-encrypted file per secret) to a
CSV file with the columns `password`, `additional` and `file_path`. This project models
the part of `src/main.rs` that decides what ends up in those rows:

- `TextLines` — Rust's `str::lines`, used both on a decrypted secret and on the list of
  paths printed by `fd`: cut at every `\n`, no empty line after a final `\n`, no line at
  all for the empty text, one trailing `\r` dropped from every line.
- `Whitespace` — `str::trim` with `char::is_whitespace` (the 25 code points of Unicode
  White_Space).
- `Entries` — `Entry::new`, `parse_password`, `parse_additional` and the trim-then-parse
  step of `Entry::from_file`. The password is the first line; if there is no line the
  parse fails with `NoPassword`. Every later line is followed by the delimiter and the
  results are concatenated, so the delimiter also ends the last line and a blank line
  becomes a bare delimiter.
- `Pipeline` — `Entry::from_file` with `gpg` as a decryption oracle, and the `for` loop
  of `main` that loads the listed paths in order and hands one row per entry to the CSV
  writer. A failed decryption ends the run with the tool's status, or 1 when it has
  none. A parse error ends it with the panic of `unwrap()`. The run is specified by the
  function `Export` and carried out by the method `ExportLoop`. Both take the per-path
  loader as a parameter; `Loader(delimiter, decrypt)` is `from_file` itself.

Two things one might expect of the line splitting do not hold:

- Only `\n` ends a line. One `\r` is dropped at the end of a line, and a bare `\r`
  inside a line stays part of it.
- Lines joined by `\n` come back as those lines only when the last one is not empty.
  `lines` reads the `\n` before an empty last line as a final line ending, and a single
  empty line as no line at all. `NewOfJoined` proves the round trip under that
  condition, and `JoinedDropsEmptyLastLine` shows both cases where it fails.

`str::lines` here strips a `\r` at the end of every line, including a last line with
no `\n`, as older Rust standard libraries do. Newer ones keep a bare `\r` at the very
end of the text. The two agree on every text the model splits. In `from_file`, `trim`
has already removed such a `\r`. In `main`, the listing comes from `fd`, which ends
every path it prints with `\n`, so the listing never ends in a bare `\r`.

## Model

| member | source | states |
|---|---|---|
| TextLines.Lines | src/main.rs:37 | the text has no line exactly when it is empty; no line holds a `\n`; the first line is a prefix of the text |
| TextLines.LinesCons | src/main.rs:37 | the first line ends at the first `\n` (minus a trailing `\r`), and the rest of the text is cut on its own |
| TextLines.FirstLineStart | src/main.rs:37-38 | a text that does not start with `\n` or `\r` has a non-empty first line starting with the text's first character |
| TextLines.LinesOfOneLine | src/main.rs:37 | a non-empty text without `\n` is exactly one line |
| TextLines.LinesOfTerminated | src/main.rs:104 | round trip: lines each followed by `\n` (the shape of `fd` output) are cut back into exactly those lines |
| TextLines.LinesOfCrLfTerminated | src/main.rs:37 | round trip: lines each followed by `\r\n` are cut back into exactly those lines |
| TextLines.LinesOfJoined | src/main.rs:37 | round trip: lines joined by `\n` come back unchanged when the last one is not empty |
| TextLines.JoinedDropsEmptyLastLine | src/main.rs:37 | `"a\n"` is the single line `"a"` and `""` has no line: an empty last line is lost |
| TextLines.FinalNewlineOptional | src/main.rs:37 | adding a final `\n` to a non-empty text not ending in `\n` adds no line |
| Whitespace.TrimStart | src/main.rs:60 | the result is a suffix of the text, everything dropped is whitespace, and the result does not start with whitespace |
| Whitespace.TrimEnd | src/main.rs:60 | the result is a prefix of the text, everything dropped is whitespace, and the result does not end with whitespace |
| Whitespace.Trim | src/main.rs:60 | nothing is left exactly when the text is all whitespace; what is left neither starts nor ends with whitespace |
| Whitespace.TrimIsSlice | src/main.rs:60 | the trimmed text is a contiguous slice of the input with only whitespace on either side |
| Whitespace.TrimIdempotent | src/main.rs:60 | trimming twice is trimming once |
| Entries.ParsePassword | src/main.rs:74-79 | fails with `NoPassword` exactly when no line is left; otherwise the password and the remaining lines together are the lines given |
| Entries.AdditionalLength | src/main.rs:64-72 | the field is as long as all the lines together plus one delimiter per line |
| Entries.New | src/main.rs:36-46 | fails with `NoPassword` exactly when the content is empty; otherwise the path is kept verbatim and the password is a prefix of the content without `\n` |
| Entries.FromDecrypted | src/main.rs:60-61 | fails with `NoPassword` exactly when the decrypted text is whitespace only; otherwise the password is non-empty, does not start with whitespace, and the path is kept |
| Entries.AdditionalAppend | src/main.rs:64-72 | the field of a concatenation of line lists is the concatenation of their fields (lines keep their order) |
| Entries.AdditionalAt | src/main.rs:64-72 | line `k` appears verbatim right after the earlier lines and delimiters and is followed by the delimiter; a blank line contributes exactly the delimiter |
| Entries.AdditionalEndsWithDelimiter | src/main.rs:64-72 | with at least one line the field ends with the delimiter: it terminates lines rather than separating them |
| Entries.AdditionalSplitsBack | src/main.rs:64-72 | with a one-character delimiter occurring in no line, splitting the field at the delimiter gives back the lines |
| Entries.DelimiterInsideLineIsAmbiguous | src/main.rs:64-72 | the delimiter is not escaped: the line `a;b` and the lines `a`, `b` give the same field |
| Entries.NewOfJoined | src/main.rs:36-46 | content made of lines joined by `\n` (last one non-empty) parses into the first line as password and the other lines, each followed by the delimiter, as additional field |
| Entries.NewOfTerminated | src/main.rs:36-46 | content made of lines each followed by `\n` parses the same way |
| Entries.NewOneLine | src/main.rs:36-46 | a content of one line gives that line as password and an empty additional field |
| Entries.NewFields | src/main.rs:36-46 | non-empty content parses; the password is the first line; the field's length is that of the later lines plus one delimiter per later line; one line gives an empty field |
| Pipeline.FromFileOutcomes | src/main.rs:48-62 | exit with the decryptor's status (or 1) exactly when decryption fails; panic with `NoPassword` exactly when the decrypted text is whitespace only; otherwise an entry for that path with a non-empty password |
| Pipeline.AbortedIgnoresLaterPaths | src/main.rs:104-110 | once the run has stopped, appending paths changes nothing: no later path is processed |
| Pipeline.ExportFinished | src/main.rs:104-110 | the run finishes exactly when every path loads, and then has one row per path, row `k` being the entry of path `k` |
| Pipeline.ExportAborted | src/main.rs:104-110 | a stopped run has fewer rows than paths, every earlier path loaded into its row, and the path after the last row is the one that failed |
| Pipeline.RowsFollowPaths | src/main.rs:104-110 | in a finished export, row `k`'s file path is path `k` |
| Pipeline.ExportStopsAt | src/main.rs:104-110 | a failing path after only successful ones ends the run with that failure and exactly the earlier rows |
| Pipeline.DecryptFailureStopsRun | src/main.rs:55-57 | a decryption failure at path `k` after `k` successful paths ends the run with `k` rows and the decryptor's status (or 1) |
| Pipeline.ExportLoop | src/main.rs:104-110 | the loop's rows and stop are exactly those of `Export`; it loads every path when it finishes, and stops right after the failing path, loading one more path than it has rows |
| Pipeline.Run | src/main.rs:93-104 | a failed listing exits with its status (or 1) and no rows; otherwise the listing's lines are exported in order |

## Left out

- Spawning `gpg` and `fd` (src/main.rs:49-53, 85-91). Both become parameters: `decrypt` is a function from path to process output, and `listing` is the output of `fd`. The `expect` panic when a tool cannot be started is not modelled.
- Forwarding the tool's stderr and the actual `process::exit` (src/main.rs:56-57, 94-97). The model returns `Aborted(rows, Exit(status))` instead. It does not model that Unix keeps only the low 8 bits of the status.
- The panic of `unwrap()` on `NoPassword` (src/main.rs:61). It is the outcome `Panic(NoPassword)`; process exit code 101 and the panic message are not modelled.
- CSV serialisation, quoting, the header row and `flush` by the `csv` crate (src/main.rs:102, 106-117). The writer is the sequence of rows handed to it. Serialisation and flush never fail in the model. The model also does not say which rows reach the disk when a run stops, because that depends on the writer's buffering.
- Creating the output file (src/main.rs:101) and command-line parsing with `structopt` (src/main.rs:9-20, 83). These are file-system and argument glue.
- UTF-8 validation of tool output and of the output path (src/main.rs:60, 100, 114-116). Texts are taken to be valid strings already.
- Pipeline.ExportLoop: takes the per-path loader as a parameter instead of calling `Entry::from_file` by name. `Run` passes `Loader(delimiter, decrypt)`, which is exactly `from_file`, so `Run`'s contract covers the source's loop.
