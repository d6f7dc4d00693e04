# envdb read path in Dafny

envdb is a command-line key-value store kept in an env file, a text file with
one `KEY=VALUE` record per line. The library of the repository implements one
operation, `get`: open the file, walk its lines in order, and return the pair
parsed from the first line that starts with `key=`. This project models that
operation and its line parser, and proves what they promise.

- `wrappers.dfy` — module `Wrappers`: `Option` and `Result`, standing for
  Rust's types of the same names.
- `envdb.dfy` — module `EnvDb`, following `src/lib.rs`:
  - `EnvPair` is the struct of the same name.
  - `SplitOnce` is Rust's `str::split_once` on a character.
  - `LineToEnvPair` is `line_to_env_pair`. The source panics on a line
    without `=`, so the model makes `=` in the line a precondition.
  - `Get` is `get`, written as a method with a `while` loop over the lines
    and an early return on the first match.
  - `ScanLines` and `GetResult` are recursive and functional restatements of
    the same lookup. `Get` is proved equal to `GetResult`, and the lemmas are
    proved about `GetResult`.

The file system is a parameter. An `EnvFile` is
`Option<seq<Option<string>>>`. The outer `None` is a file that cannot be
opened. Otherwise it holds the file's lines in order, and an inner `None` is
a line whose read returned an error. The path is a plain `string`; it appears
only in the two error messages.

Three facts about `src/lib.rs` shape the model:

- A line whose read returned an error is skipped and the scan goes on
  (`src/lib.rs:35-37`).
- Any readable line starting with `key=` is parsed, whatever else it holds
  (`src/lib.rs:31-32`).
- The two errors are plain message strings (`src/lib.rs:39`, `src/lib.rs:41`).

## Model

| member | source | states |
|---|---|---|
| `EnvDb.SplitOnce` | src/lib.rs:12 | no result exactly when the delimiter is absent; otherwise the left part has no delimiter and left + delimiter + right is the input, so the split is at the first occurrence |
| `EnvDb.LineToEnvPair` | src/lib.rs:11-20 | defined only for lines containing `=` (the source panics otherwise); the key contains no `=` and key + `=` + value is the line |
| `EnvDb.LineToEnvPairUnique` | src/lib.rs:11-16 | any way of writing the line as a key without `=`, then `=`, then a value is exactly the parse of the line |
| `EnvDb.LineToEnvPairRoundTrip` | src/lib.rs:11-16 | parsing key + `=` + value gives back that key and value whenever the key has no `=`, whatever the value holds |
| `EnvDb.LineToEnvPairKeepsLaterDelimiters` | src/lib.rs:12-15 | `A=b=c` parses to key `A` and value `b=c`; `A=` parses to key `A` and an empty value |
| `EnvDb.KeyWithEqual` | src/lib.rs:23 | the searched prefix is the key followed by one `=` |
| `EnvDb.Matches` | src/lib.rs:30-31 | a line matches exactly when it was read without error, is longer than the key, begins with the key, and has `=` right after it |
| `EnvDb.MatchingLineHasDelimiter` | src/lib.rs:31-32 | a line starting with `key=` contains `=`, so the parse that follows the prefix test never panics |
| `EnvDb.ScanLines` | src/lib.rs:29-38 | a pair found is the parse of some readable line starting with `key=`, and its key contains no `=` |
| `EnvDb.GetResult` | src/lib.rs:22-43 | an unopenable file gives `Failed to open the file: <path>`; a readable file gives a pair or `Not found key in env file: <path>`; a pair's key contains no `=` |
| `EnvDb.ScanLinesFirstMatch` | src/lib.rs:29-33 | when line i is the first readable line starting with `key=`, the result is the parse of line i: the first match wins |
| `EnvDb.ScanLinesNone` | src/lib.rs:29-39 | the scan finds nothing if and only if no readable line starts with `key=` |
| `EnvDb.ScanLinesIgnoresLater` | src/lib.rs:31-33 | once a match exists, appending any lines, including later lines with the same key, leaves the result unchanged |
| `EnvDb.ScanLinesSkipsUnreadable` | src/lib.rs:30-37 | inserting an unreadable line at any position leaves the result unchanged: such a line is skipped and the scan continues |
| `EnvDb.Get` | src/lib.rs:22-43 | the loop with its early return yields exactly `GetResult`; its invariant is that no earlier readable line starts with `key=` |
| `EnvDb.GetFindsRequestedKey` | src/lib.rs:23-33 | for a key without `=`, the pair found has exactly that key, and its value is the rest of the first matching line after `key=` |
| `EnvDb.ParseSplitsInsideKey` | src/lib.rs:12 | for a key containing `=`, parsing `key=rest` splits inside the key: its key part is the key's own part before its first `=`, whatever `rest` is |
| `EnvDb.GetTruncatesKeyWithDelimiter` | src/lib.rs:23-33 | for a key containing `=`, a matching line still gives a pair, but its key is only the part of the requested key before the key's first `=` |
| `EnvDb.GetNotFound` | src/lib.rs:39 | on a readable file the lookup returns the not-found message naming the path if and only if no readable line starts with `key=` |
| `EnvDb.GetScenarioFound` | tests/get_test.rs:4-19 | on the lines `SOME_APP_KEY=app-key`, `SOME_APP_SECRET=app-secret`, looking up `SOME_APP_KEY` gives the pair (`SOME_APP_KEY`, `app-key`) |
| `EnvDb.GetScenarioNotFound` | tests/get_test.rs:22-37 | on the same lines, `NOT_FOUND_KEY` gives `Not found key in env file: tests/.test-env` |
| `EnvDb.GetScenarioOpenFailure` | tests/get_test.rs:40-55 | a file that cannot be opened gives `Failed to open the file: tests/.not-found-env` |

## Left out

- File I/O (`fs::File::open`, `BufReader::lines`): replaced by the `EnvFile`
  parameter, which keeps only the open-failure and read-failure outcomes.
- Endless line streams: the model takes the lines as a finite sequence, so
  `Get` always returns. In the source, a file that opens but can never be
  read (a directory, for one) makes `BufReader::lines` yield an error on
  every call without ending, and the loop at `src/lib.rs:29-37` then never
  returns.
- The `println!` on an unreadable line (`src/lib.rs:36`): it is console
  output only; the model keeps the skip.
- The panic on a path that is not valid UTF-8 (`src/lib.rs:24`): the path is
  a Dafny `string`.
- `src/main.rs`: it parses command-line arguments with clap and prints the
  path. It never calls the library, so it holds no logic to model.
- `put`, `scan` and `delete`, and the temporary-file rewrite: the
  integration tests (`tests/put_test.rs`, `tests/scan_test.rs`,
  `tests/delete_test.rs`) run them through the command line, but no code in
  the repository implements them. Modelling them would mean inventing
  behaviour.
- The panic of `line_to_env_pair` on a line without `=`: it is a
  precondition of `LineToEnvPair`, and `MatchingLineHasDelimiter` proves
  that `Get` never breaks it.
