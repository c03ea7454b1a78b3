# Embedded PostgreSQL: bootstrapper, embedded API and dispatch parser

This project models three parts of an embedded build of PostgreSQL in Dafny
and proves properties of the model.

- **The in-process bootstrapper** (`pg_embedded_initdb_main`):
  - the argument gate and the `UTF8` / `C` defaults;
  - the data-directory layout: the root, `pg_wal`, then the 22-entry
    subdirectory table, each `mkdir` needing its parent present and the path
    absent;
  - the `PG_VERSION` and empty `postgresql.conf` files;
  - the per-line token substitution that turns the catalog bootstrap (BKI)
    template into the script the bootstrap engine reads.
- **The embedded API** (`pg_embedded_*`): a state machine over the
  `initialized` flag and the last error message.
  - `init`, `exec`, `free_result`, `begin` / `commit` / `rollback`,
    `error_message` and `shutdown`;
  - the caller-owned result grid that `exec` allocates and `free_result`
    releases;
  - the shell command that `pg_embedded_initdb` builds for an external
    `initdb`.
- **The dispatch-mode parser** (`parse_dispatch_option`) that the embedded
  build supplies in place of the server's command-line entry.

Modules, one file each:

| file | module | flavour |
|---|---|---|
| `wrappers.dfy` | `Wrappers` | `Option`: a C pointer that may be NULL |
| `cstrings.dfy` | `CStrings` | `strncmp` and `%d` formatting, with a parse-back round trip |
| `dispatch.dfy` | `Dispatch` | pure: the table scan as a recursive function |
| `bki.dfy` | `Bki` | pure `Subst` as the specification; the `while (*in)` scan as a method proved equal to it |
| `filesystem.dfy` | `FileSystem` | a `Disk` class: a set of directories, a map of files, `stat` / `mkdir` / write |
| `initdb.dfy` | `InitdbSimple` | an `Initdb` class holding the bootstrapper's four globals; one method per C function |
| `embedded.dfy` | `Embedded` | an `Embedded` class holding the API's globals; `PgResult` with arrays of `CStr` objects |
| `command.dfy` | `InitdbCommandLine` | pure: the command string, a shell-style reader, and the quoting finding below |

The engine itself is not modelled. It enters as oracle values passed to the
methods:
- `BringUp`: how engine start-up ends, in an exception or with `SPI_connect`'s code;
- `SpiOutcome`: what `SPI_execute` and the copy after it do with a query:
  - raise;
  - return a code, a processed count and maybe a tuple table;
  - or return a table and then raise while the value at a given row and column is converted to text;
- `Boot`: whether `BootstrapModeMain` returns or ends the process with a status;
- `charToEncoding`: the encoding-name lookup;
- `Build`: the build constants `NAMEDATALEN`, the pointer size and the major version.

The disk is a `Disk` object. It has two fixed oracles:
- `refused`: the paths whose `mkdir` or `fopen` fails for a reason other than `EEXIST` / `ENOENT`;
- `shortWrites`: the files where writing stops after a given number of characters, i.e. a failed `fprintf`, `fflush`, `fsync` or `fclose` after a successful open.

Freeing is recorded as a ghost sequence of the blocks passed to `free`.
`FreeResult` proves that this sequence releases every block the result
owns, each exactly once.

## Model

| member | source | states |
|---|---|---|
| `Dispatch.ParseDispatchOption` | embedded_stubs.c:22-51 | `check`, `boot`, `describe-config` and `single` give their own modes exactly when the name equals them. A name gives the fork-child mode exactly when the build has EXEC_BACKEND and the name begins with `forkchild`. Every other name gives the postmaster mode. Each of these is an if-and-only-if. |
| `Dispatch.ForkchildNeedsExecBackend` | embedded_stubs.c:36-43 | Without EXEC_BACKEND, `forkchild` falls through to the postmaster mode. With it, both `forkchild` and `forkchild=42` give the fork-child mode. |
| `Dispatch.NoLooseMatches` | embedded_stubs.c:46-50 | `boot2`, `BOOT` and the empty name give the postmaster mode: matching is exact and case-sensitive. |
| `CStrings.StrNEqIsPrefix` | src/backend/embedded/initdb_simple.c:302 | `strncmp(s, lit, strlen(lit)) == 0` holds exactly when `lit` is a prefix of `s`. |
| `CStrings.FormatIntRoundTrip` | src/backend/embedded/initdb_simple.c:304 | The numeral that `%d` prints reads back as the same integer. |
| `CStrings.FormatIntInjective` | src/backend/embedded/initdb_simple.c:325 | Distinct integers print differently under `%d`. |
| `Bki.StepAt` | src/backend/embedded/initdb_simple.c:300-356 | Each step of the scan advances the input by at least one character and never past the end of the line. |
| `Bki.MatchAtFits` | src/backend/embedded/initdb_simple.c:302-352 | The placeholder the `if` chain picks really begins at the scan position. |
| `Bki.NamesPrefixFree` | src/backend/embedded/initdb_simple.c:302-352 | No placeholder name is a prefix of another. |
| `Bki.MatchAtIsUnique` | src/backend/embedded/initdb_simple.c:302-352 | The chain picks `t` exactly when `t`'s name begins the input. At most one placeholder matches at any position, so the order of the `if` chain does not matter. |
| `Bki.MatchAtNone` | src/backend/embedded/initdb_simple.c:353-356 | The chain picks nothing exactly when no placeholder begins the input. |
| `Bki.ChainFailsNoToken` | src/backend/embedded/initdb_simple.c:302-356 | When all ten `strncmp` tests (lengths 11, 14, 15, 8, 8, 10, 8, 9, 9, 15) fail, no placeholder begins the input. |
| `Bki.StepAtToken` | src/backend/embedded/initdb_simple.c:302-352 | Where a placeholder's test succeeds, the step emits its value and skips exactly its name. |
| `Bki.StepAtOther` | src/backend/embedded/initdb_simple.c:353-356 | Where no placeholder begins, the step copies one character. |
| `Bki.SubstAtToken` | src/backend/embedded/initdb_simple.c:302-352 | At a placeholder, the line's substitution is the value followed by the substitution of the rest after the name. |
| `Bki.SubstAtOther` | src/backend/embedded/initdb_simple.c:353-356 | Elsewhere, the substitution is the character followed by the substitution of the remainder. |
| `Bki.SubstNoTokens` | src/backend/embedded/initdb_simple.c:300-358 | A line in which no placeholder begins at any position is copied unchanged. |
| `Bki.SubstSingleToken` | src/backend/embedded/initdb_simple.c:302-352 | A line that is exactly one placeholder becomes exactly its value. |
| `Bki.FixedMappings` | src/backend/embedded/initdb_simple.c:302-351 | The ten mappings: `NAMEDATALEN`, `SIZEOF_POINTER` and `ENCODING` give `%d` of the build constant or the encoding id. `ALIGNOF_POINTER` gives `i` for 4-byte pointers and `d` otherwise. `POSTGRES` gives the user name. `LC_COLLATE` and `LC_CTYPE` give the locale. `DATLOCALE` and `ICU_RULES` give `_null_`. `LOCALE_PROVIDER` gives `c`. |
| `Bki.SubstNotIdempotent` | src/backend/embedded/initdb_simple.c:295-360 | Output goes to a separate buffer and is never rescanned. A user name spelled `ENCODING` is emitted as is, and a second pass would change it. |
| `Bki.ScanStep` | src/backend/embedded/initdb_simple.c:302-356 | The source's `if` chain, with its hard-coded lengths, emits and advances exactly as one step of `Subst` does. |
| `Bki.SubstituteLine` | src/backend/embedded/initdb_simple.c:295-358 | The `while (*in)` loop over one line produces exactly `Subst` of the line. |
| `InitdbSimple.SubdirParentEarlier` | src/backend/embedded/initdb_simple.c:41-64 | Each table entry's parent is the root, `pg_wal` or an earlier entry: `pg_multixact` comes before its two children, `base` before `base/1`, and `pg_logical` before its two children. |
| `InitdbSimple.SubdirParentFirst` | src/backend/embedded/initdb_simple.c:41-64 | Under any data directory, the same holds for the full paths, and no path repeats the root, `pg_wal` or an earlier entry. |
| `InitdbSimple.LayoutInOrder` | src/backend/embedded/initdb_simple.c:229-235 | The whole table can be created in order once the root and `pg_wal` exist. |
| `InitdbSimple.FilesOutsideLayout` | src/backend/embedded/initdb_simple.c:160-170 | `PG_VERSION`, `postgresql.conf` and the scratch script are not directories of the layout and are distinct from one another. |
| `InitdbSimple.ScriptAppend` | src/backend/embedded/initdb_simple.c:293-361 | Substitution is line-local: the script of two concatenated line sequences is the concatenation of their scripts. |
| `InitdbSimple.ScriptVerbatim` | src/backend/embedded/initdb_simple.c:293-361 | Lines without placeholders reach the bootstrap engine unchanged. |
| `InitdbSimple.MakeDirs` | src/backend/embedded/initdb_simple.c:111-123 | `mkdir` runs over the paths in order and stops at the first failure. On success, every path is created and none existed before. On failure, exactly the paths before the failing one are created, and the failing path exists, lacks its parent or was refused. Files are untouched. Paths that can all be created never fail. |
| `FileSystem.Disk.Stat` | src/backend/embedded/initdb_simple.c:210-216 | `stat` succeeds exactly when the path exists, as a directory or a file. |
| `FileSystem.Disk.Mkdir` | src/backend/embedded/initdb_simple.c:72-82 | `mkdir` succeeds exactly when the path is absent, its parent is present and it is not refused. The error is EEXIST, ENOENT or another errno, in that order. |
| `FileSystem.Disk.WriteFile` | src/backend/embedded/initdb_simple.c:170-186 | Opening for writing succeeds exactly when the path is not a directory, its parent is present and it is not refused. A failed open changes nothing. After a successful open the file is truncated and then holds what got through (`Stored`): all of the content, or, for a short write, only its prefix. Writing succeeds exactly when the open did and the write was not cut short. |
| `FileSystem.Disk.Stored` | src/backend/embedded/initdb_simple.c:178-181 | What a write leaves in a file is a prefix of the content: all of it, unless the file is one of the short writes, which keep only their first characters. |
| `FileSystem.Disk.Unlink` | src/backend/embedded/initdb_simple.c:412 | Removes the file and nothing else. |
| `InitdbSimple.Initdb.constructor` | src/backend/embedded/initdb_simple.c:34-37 | The four globals (data directory, user name, encoding, locale) start unset, and the build constants and encoding lookup are the ones given. |
| `InitdbSimple.Initdb.CreateDataDirectory` | src/backend/embedded/initdb_simple.c:69-83 | An existing root is tolerated (a warning). Otherwise the root is created unless refused. |
| `InitdbSimple.Initdb.CreateXlogSymlink` | src/backend/embedded/initdb_simple.c:88-101 | `pg_wal` is created exactly when it is absent, the root is present and it is not refused. An existing `pg_wal` is a failure. |
| `InitdbSimple.Initdb.CreateSubdirectories` | src/backend/embedded/initdb_simple.c:106-124 | The table is created in order under the data directory, with the outcome stated for both success and the first failure. It succeeds whenever the root and `pg_wal` exist and no entry exists or is refused. |
| `InitdbSimple.Initdb.WriteVersionFile` | src/backend/embedded/initdb_simple.c:159-187 | A failed open changes nothing. After a successful open, `PG_VERSION` holds the part of the major version and newline that got through. Success means it holds all of it. |
| `InitdbSimple.Initdb.WriteEmptyConfigFile` | src/backend/embedded/initdb_simple.c:129-153 | A failed open changes nothing. A successful open leaves `postgresql.conf` empty. The write fails exactly when the open or the `fclose` fails. |
| `InitdbSimple.Initdb.CopyBki` | src/backend/embedded/initdb_simple.c:293-361 | The copy loop produces the script: each line substituted with the configured values, in order. |
| `InitdbSimple.Initdb.CreateTree` | src/backend/embedded/initdb_simple.c:226-236 | On success the directories are exactly the old ones plus the whole layout, and the creation order is root (if new), `pg_wal`, then the table. A failure names a layout path and leaves exactly the directories made before it (`TreeCut`): nothing for the root; the root if new for `pg_wal`; the root if new, `pg_wal` and the earlier entries for a table entry. Files are untouched. When the layout is ready, there is no failure. |
| `InitdbSimple.Initdb.CreateLayout` | src/backend/embedded/initdb_simple.c:226-243 | The tree, then both files. On success the data directory is initialized, with exactly these changes to the disk. A failure leaves exactly what was done before it (`LeftBehind`): the cut tree; or the whole tree with what got through of `PG_VERSION` once it opened; or the whole tree, `PG_VERSION` and, once it opened, the empty `postgresql.conf`. |
| `InitdbSimple.Initdb.Populate` | src/backend/embedded/initdb_simple.c:226-423 | Everything after the gate. A failure exits with status 1 and leaves exactly what was done before it (`LeftBehind`). A return of 0 or the engine's own exit leaves the whole layout, both files and the scratch copy's script, with the copy removed after a return. With a ready disk and a readable template, the outcome is the engine's. |
| `InitdbSimple.SubdirFailureBlocksRetry` | src/backend/embedded/initdb_simple.c:95-100 | After a run exits on a table entry, `pg_wal` is on disk, so the layout is no longer ready and the next run's `mkdir` of `pg_wal` fails. |
| `InitdbSimple.VersionFailureEndsRetry` | src/backend/embedded/initdb_simple.c:203-217 | After a run exits on a `PG_VERSION` that opened, the file is on disk holding a prefix of the version line, so the next run's `stat` finds it and returns 0. |
| `InitdbSimple.Initdb.Bootstrap` | src/backend/embedded/initdb_simple.c:283-412 | A failed open of the scratch copy exits with status 1 and changes nothing. Otherwise the copy holds what got through of the substituted template, unchecked, and the engine runs on that. When it returns, the copy is unlinked and 0 follows. When it ends the process, the copy stays. Directories are never touched. |
| `InitdbSimple.Initdb.InitdbMain` | src/backend/embedded/initdb_simple.c:194-423 | A missing data directory or user name returns -1. An existing `PG_VERSION` returns 0. In both cases nothing changes. A returned code is always 0 or -1. Otherwise the globals take the arguments with `UTF8` and `C` defaults. Every failure exits with status 1 on a layout path, one of the two files, the template or the scratch copy, and the disk holds exactly what was done before it (`LeftBehind`; for the template and the copy, the layout and both files). No directory is ever removed. Two further outcomes hold the layout and both files, with the script written to the scratch copy being the substituted template (or its stored prefix): a return of 0, which means the engine returned and the scratch copy is removed, and the engine ending the process with its own status, which leaves the copy. With a ready disk and a readable template, the outcome is the engine's. |
| `Embedded.PgResult.constructor` | src/backend/embedded/pgembedded.c:342-349 | A fresh result is zero-filled: status 0, no rows, no columns, null arrays. |
| `Embedded.CopyStrings` | src/backend/embedded/pgembedded.c:402-408 | Allocates a fresh array that is null-filled. It then holds fresh strings with the given texts up to the stopping column, and null after it. |
| `Embedded.CopyGrid` | src/backend/embedded/pgembedded.c:411-448 | Allocates a fresh null-filled array of rows. It copies the rows in order, and row `i` holds the texts of tuple `i`, with `"NULL"` for a null value. A conversion error at (row, col) stops the copy there: that row is assigned with only its first `col` cells, the cells after them are null, and so are the later rows. The strings are fresh and distinct. |
| `Embedded.Materialise` | src/backend/embedded/pgembedded.c:383-449 | After a SELECT, `cols` is the attribute count and the names are the attribute names. The rows hold the tuple texts, as far as a conversion error lets the copy go. Status and row count are kept. Every entry not assigned is null, and the result owns only new blocks. |
| `Embedded.Answer` | src/backend/embedded/pgembedded.c:342-485 | The result for each engine answer. An exception inside `SPI_execute` gives status -1 with nothing copied. A negative code gives that code with no columns and null arrays. A SELECT with a table gives the copied grid. Any other code gives the code and the processed count only. An exception during the copy gives status -1 and the processed count, together with the names and the rows copied before the faulting value. |
| `Embedded.CompleteCopyAssigned` | src/backend/embedded/pgembedded.c:383-449 | When nothing throws, every name, row and cell that `free_result` reads was assigned. |
| `Embedded.CopyFaultLeavesUnassigned` | src/backend/embedded/pgembedded.c:419-448 | As written: after an exception at row `r`, column `c`, the result `exec` returns has a name array and a row array, `r` and `c` lie within `rows` and `cols`, and cell (`r`, `c`) was never assigned, though `free_result` reads it. |
| `Embedded.FaultCopyContents` | src/backend/embedded/pgembedded.c:419-485 | After such an exception: status -1, the processed count, all the column names, every earlier row in full, the faulting row up to the failing column, and no later row. |
| `Embedded.RowsOrderSound` | src/backend/embedded/pgembedded.c:517-531 | Freeing the rows cell by cell, each row array after its cells, releases every cell and row array once. |
| `Embedded.ReleasesSound` | src/backend/embedded/pgembedded.c:502-534 | The release order (names, the names array, the rows, the rows array, then the struct) has no repeats and covers exactly the blocks the result owns. |
| `Embedded.ReleaseOrderSound` | src/backend/embedded/pgembedded.c:502-534 | The same property, for a built result in the heap. |
| `Embedded.FreeStrings` | src/backend/embedded/pgembedded.c:506-514 | Frees each non-null string of the array in index order, then the array. |
| `Embedded.FreeGrid` | src/backend/embedded/pgembedded.c:517-532 | Frees the non-null rows in order, each row's non-null cells before the row array, then the array of rows. |
| `Embedded.FreeResult` | src/backend/embedded/pgembedded.c:496-535 | `free_result(NULL)` frees nothing. Otherwise the frees follow the source's order, free no block twice, and cover every block the result owns. This includes a result left incomplete by a conversion error, because every unassigned entry is null. |
| `Embedded.Embedded.constructor` | src/backend/embedded/pgembedded.c:40-41 | The library starts uninitialized with an empty error message, no open transaction, no pushed snapshot and no transaction started. |
| `Embedded.Embedded.Init` | src/backend/embedded/pgembedded.c:137-316 | When already initialized, returns 0, keeps the flag and sets "Already initialized". A null argument returns -1 with "Invalid arguments". An engine exception returns -1 with "Initialization failed: " and the message. A failing `SPI_connect` returns -1 with "SPI_connect failed". The flag is set, and 0 returned, exactly when all of these pass. |
| `Embedded.Embedded.Exec` | src/backend/embedded/pgembedded.c:323-489 | Before init, or with a null query, returns null with "Not initialized" or "NULL query" and no engine effect. Otherwise it returns a fresh, built result for the engine's answer and leaves a transaction open (never committed or aborted). It starts a transaction, counted in `starts`, exactly when none was open. The message is "Query failed: …" on an exception (inside `SPI_execute` or during the copy), "Query execution failed with code: N" on a negative code, and otherwise unchanged. The pushed snapshot stays on the stack unless SPI returned a non-negative code and the copy completed. |
| `Embedded.Embedded.Transaction` | src/backend/embedded/pgembedded.c:542-619 | `begin`, `commit` and `rollback` return 0 exactly when initialized and the statement completed with a non-negative code. Otherwise they return -1 ("Not initialized" before init). Each starts a transaction exactly when initialized with none open. The result `exec` returned is freed completely on every path. |
| `Embedded.Embedded.ErrorMessage` | src/backend/embedded/pgembedded.c:626-630 | Returns the last message set. |
| `Embedded.Embedded.Shutdown` | src/backend/embedded/pgembedded.c:637-659 | Ends with the flag cleared, leaving the message and engine state alone. When not initialized it does nothing. |
| `InitdbCommandLine.AsWrittenCollision` | src/backend/embedded/pgembedded.c:106-114 | As written, data directory `a" -U "b` with user `c` builds the same command as data directory `a` with user `b" -U "c`. |
| `InitdbCommandLine.EscapePlain` | src/backend/embedded/pgembedded.c:106-114 | Escaping leaves a word unchanged exactly when it contains none of `$`, `` ` ``, `"` and `\`. |
| `InitdbCommandLine.ReadEscaped` | src/backend/embedded/pgembedded.c:106-114 | A double-quoted, backslash-escaped word reads back as the word, followed by the text after its closing quote. |
| `InitdbCommandLine.ParseQuotedCommand` | src/backend/embedded/pgembedded.c:106-114 | With escaping, the command reads back as the data directory and the user name it was built from, whatever the optional `-E` / `--locale=` fragments. |
| `InitdbCommandLine.QuotedCommandInjective` | src/backend/embedded/pgembedded.c:106-114 | With escaping, equal commands have equal data directories and user names. |
| `InitdbCommandLine.PlainArgumentsRead` | src/backend/embedded/pgembedded.c:106-114 | When neither argument contains `$`, `` ` ``, `"` or `\`, the command as written equals the escaped one. |
| `InitdbCommandLine.ParsePlainCommand` | src/backend/embedded/pgembedded.c:106-114 | The command as written then reads back correctly. |

## Behaviour worth knowing

- A null cell becomes the literal text `"NULL"` (pgembedded.c:441), not an absence marker.
- `exec` never commits or aborts. A transaction it opens stays open after a success, an error or an exception. There is no auto-commit.
- `begin` does not check for an already open transaction, and `commit` / `rollback` do not check that one is open. All three just run the statement through `exec`.
- The bootstrapper exits the process with status 1, and does not return an error, when any of these fails: a `mkdir`, an `fopen`, the write of `PG_VERSION`, the close of `postgresql.conf`, or the opening of the template or of the scratch copy (initdb_simple.c:80, 99, 121, 145-151, 175-185, 280-289). The model's `Exited(1, path)` outcome records these. Other results go unchecked: the `fputs` and `fclose` of the copy (lines 360-364) and the `unlink` of it (line 412). An exit leaves on disk whatever was done before it, and the next run meets that state: after a failure on a table entry, `pg_wal` is present and that run stops at it (lines 95-100); after a failed write of an opened `PG_VERSION`, the truncated file is present and that run returns 0 (lines 203-217).
- `shutdown` calls `SPI_finish` (pgembedded.c:646) and then `proc_exit(0)` (line 649), which ends the process. The flag is cleared (line 658) when either call raises and the error is caught (lines 651-655). The model's `Shutdown` covers those paths: it returns with the flag cleared.

## Left out

- Memory exhaustion: each `malloc` / `strdup` failure path in `exec` ("Out of memory") and the cleanup after one.
- `Embedded.CopyStrings`, `Embedded.CopyGrid`, `Embedded.Answer`, `Embedded.Materialise` and `Embedded.Embedded.Exec` allocate null-filled arrays, as the corrected version in the second finding does. The source's `malloc` leaves them indeterminate; `Embedded.CopyFaultLeavesUnassigned` states what that exposes.
- Fixed-size buffers and truncation, which the model does not capture:
  - the 8192-byte line and output buffers of the substitution (long lines are split by `fgets`; output can overflow);
  - the 1024-byte error message buffer;
  - the 2048-byte command buffer;
  - `MAXPGPATH` paths.
- File and stdin plumbing in the bootstrapper: reading the template with `fopen` / `fgets` is a line sequence, or `None` when it cannot be opened. Not modelled:
  - `dup` / `dup2` / `close` and the restore of stdin;
  - the failure of `freopen` on the scratch copy (exit 1);
  - the unchecked `fputs` / `fclose` results beyond the short write;
  - progress output on stdout.
- Diagnostics on stderr: the `WARNING:` and `ERROR:` lines the bootstrapper prints before it returns or exits (initdb_simple.c:75-78, 97, 119, 143-149, 173-183, 205, 215, 277-286). Only the outcome they accompany is modelled.
- What `BootstrapModeMain` does, and the files it writes into the data directory. Only how it ends is modelled, by the `Boot` oracle.
- Engine bring-up, `SPI_execute`, transactions and snapshots:
  - their outcomes are the `BringUp` and `SpiOutcome` oracles;
  - their state is the `inTransaction` flag, the `snapshots` depth and the `starts` counter;
  - error data is only a message;
  - an exception in `StartTransactionCommand`, `GetTransactionSnapshot` or `PushActiveSnapshot` (pgembedded.c:357-364) is not a case of its own: `SpiOutcome.Raises` stands for an exception once the snapshot is pushed.
- NUL characters: C strings end at the first NUL, which stops the `while (*in)` scan and every `%s`. The model's strings contain none.
- Returning from inside `PG_TRY` (exception-stack bookkeeping).
- `SPI_finish` and `proc_exit` in `shutdown`.
- The `extrapath` argument of the two file writers. The source always passes NULL.
- The `system()` probing of `initdb` paths in `pg_embedded_initdb`, its argument gate and its messages, and running the command. Only the command string is modelled.
- Path spelling: paths are component sequences. `a/b` written as a string, `..`, symbolic links and two spellings of one directory are not modelled.
- `Embedded.Embedded.Exec` and `Embedded.Embedded.Transaction`: require `SpiConsistent`, i.e. that a `SPI_OK_SELECT` table holds `processed` tuples of the declared width. This is the engine's guarantee, not something the caller checks.
- `FileSystem.Disk.Unlink`: always removes the file. The source ignores the result of `unlink` (initdb_simple.c:412); a failed one would leave the scratch copy behind. `InitdbSimple.Initdb.InitdbMain`'s statement that the copy is gone after a return of 0 rests on this.
- `Embedded.Embedded.Transaction`: the freed blocks and the result are ghost outputs. The C functions return only the code.
- `pg_embedded_set_config` (declared, no definition) and the test harness.

## Findings

| source | as written | input that shows it | evidently intended | confidence | as-written member | corrected member |
|---|---|---|---|---|---|---|
| src/backend/embedded/pgembedded.c:106-114 | `data_dir` and `username` are placed inside double quotes but not escaped | data directory `a" -U "b` with user `c` gives the same command string as data directory `a` with user `b" -U "c` | each value reaches `initdb` as one word, whatever it contains | medium, not executed | `InitdbCommandLine.AsWrittenCollision` | `InitdbCommandLine.QuotedCommandInjective` |
| src/backend/embedded/pgembedded.c:394-448 | the name array, the array of rows and each row come from `malloc`, so entries not yet assigned are indeterminate; an exception in `SPI_getvalue` (line 438) is caught at lines 463-484, which return the partly built result, and `free_result` (lines 505-532) then reads those entries and passes non-null ones to `free` | a `SELECT` returning two rows of one column whose first value fails to convert to text: `values[0][0]` and `values[1]` are never assigned but are read and freed | the arrays are zero-filled (`calloc`), so that the null checks in `free_result` skip every entry the copy did not reach | high, not executed | `Embedded.CopyFaultLeavesUnassigned` | `Embedded.FreeResult` |
