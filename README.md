# Record table with file backing, and the command argument buffer

This project models the core of a small C database (katelo731/DB): a
fixed-capacity table of user records (`Table_t`) that may be bound to a
file of records, and the command object (`Command_t`) that collects the
arguments of one input line and can be retagged as an insert. The model
states the behaviour fixed by `test/Table_test.c` and `test/Command_test.c`,
generalised from their sample records to any records.

## Structure

- `users.dfy` — module `Users`: the record `User(id, name, email, age)` (`User_t`).
- `wrappers.dfy` — module `Wrappers`: `Option`, standing for a pointer that may be NULL.
- `files.dfy` — module `Files`: an open file (`DbFile`, a `FILE *`) holds a
  sequence of records; a `FileSystem` maps names to files. `Open` is the
  model's open: a missing name gets a fresh empty file, and the handle it
  returns is the one `get_User` reads through and `archive_table` appends
  to. `Write` is the tests' `setup_sample_db_file`. File sizes are measured in records.
- `table_spec.dfy` — module `TableSpec`: the table state as a value
  (`users` and `cacheMap` buffers of `MaxTableSize` slots, `len`, the bound
  file), its invariant `Valid`, the logical `Contents`, one function per
  table operation (`NewTable`, `Add`, `Get`, `Archive`, `Load`) and lemmas
  relating several operations.
- `table.dfy` — module `Tables`: the class `Table` with the fields of
  `Table_t` (`capacity`, `users`, `cacheMap`, `len`, `fp`, `fileName`).
  Each method updates the arrays and fields in place and is proved to make
  exactly the transition of the matching `TableSpec` function.
  `AddUser` is `add_User` with a table pointer that may be NULL.
- `command.dfy` — module `Commands`: the class `Command` with `kind` (the C
  field `type`), a growable `args` array, `argsLen` and `argsCap`.
- `table_tests.dfy`, `command_tests.dfy` — the tests as client methods. Each
  one builds its own file system, table or command, runs the test's steps,
  and promises in its `ensures` what the test asserts.

Decisions where the tests leave room:

- `archive_table` returns the table's `len`: with 2 stored and 5 added
  records it returns 7
  (test/Table_test.c:256-257). The tests do not show whether
  `archive_table` keeps the file bound afterwards. The model keeps it, so a
  second call returns `len` again, not the 0 that releasing the file would
  give; either way the second call leaves the file unchanged.
- `archive_table` appends the slots from the file's current record count up
  to `len`. The file's record count serves as the "already persisted"
  cursor, because `Table_t` has no field of its own for it. The file stays
  bound afterwards.
- `load_table` with a file clears the whole residency map, not only the
  slots below the file's record count: test/Table_test.c:400-402 checks 50
  slots after binding a 2-record file.
- `load_table(t, NULL)` changes nothing and returns `len`
  (test/Table_test.c:405-426).
- A file holding more than `MaxTableSize` records yields a full table of its
  first `MaxTableSize` records; this keeps `len <= capacity`.
- `MAX_TABLE_SIZE` is defined in `Table.h`. The tests need at least 52 slots
  (test/Table_test.c:111-117); the model uses 10000.
- `add_User` returns 0 on failure, and `add_Arg` returns 1 on failure (the
  tests only check "not 1" and "not 0").
- `handle_insert_cmd` succeeds exactly on a `QUERY_CMD` command with five
  arguments, the first being `"insert"`, and then returns 1.

## Model

| member | source | states |
|---|---|---|
| `TableSpec.NewTable` | test/Table_test.c:150-172 | new_Table: nothing is resident; without a file len is 0 and no file is bound; with a file len is its record count (capped at MaxTableSize), the file is bound by name, and the table holds the file's records |
| `Tables.Table.constructor` | test/Table_test.c:134-148 | new_Table on the heap: capacity is MaxTableSize, the state is exactly `NewTable` of what the named file held, and the bound `fp` is the file system's file of that name (freshly created when missing) |
| `TableSpec.Add` | test/Table_test.c:59-74 | add_User returns 1 exactly when a user is given and len < MaxTableSize; then the user becomes the last record, len grows by one, its slot becomes resident and the file is untouched; otherwise it returns 0 and nothing changes; the invariant is kept |
| `Tables.Table.Add` | test/Table_test.c:174-185 | writes `users[len]` and `cacheMap[len]` and bumps len, making exactly the `TableSpec.Add` transition |
| `Tables.AddUser` | test/Table_test.c:187-193 | add_User with a NULL table returns 0; with a table it is `Table.Add` |
| `TableSpec.AddAllFills` | test/Table_test.c:195-209 | a run of adds: the k-th returns 1 while len + k < MaxTableSize and 0 after, and len ends at min(len + count, MaxTableSize) |
| `TableSpec.AddAllContents` | test/Table_test.c:281-296 | after a run of adds the table holds its old records followed by exactly the accepted users |
| `TableSpec.AddAllResidency` | test/Table_test.c:94-117 | a run of adds makes the filled slots resident and leaves every other residency bit as it was |
| `TableSpec.AddAll` | test/Table_test.c:83-88 | a run of adds, one `Add` per user in order, keeps the table invariant and gives one result per user |
| `Tables.AddEach` | test/Table_test.c:65-70 | the tests' add loop: the table's state and the results are those of `TableSpec.AddAll` |
| `TableSpec.Get` | test/Table_test.c:28-43 | get_User(i) for i < len returns record i of the contents, whether resident or on file; afterwards slot i is resident, every other bit is unchanged, and contents, len and file are unchanged |
| `Tables.Table.Get` | test/Table_test.c:325-349 | reads from `fp` into `users[i]` only when `cacheMap[i]` is false, making exactly the `TableSpec.Get` transition |
| `Tables.GetEach` | test/Table_test.c:119-125 | reading slots 0..n-1 in order returns the first n records and makes exactly those slots resident in addition to those already resident |
| `TableSpec.Archive` | test/Table_test.c:240-259 | archive_table without a file returns 0 and changes nothing; with one it returns len, keeps the old file as a prefix, leaves max(stored, len) records on file with the whole table among them, and changes no slot |
| `Tables.Table.Archive` | test/Table_test.c:211-231 | appends the missing records to `fp` one at a time in slot order, making exactly the `TableSpec.Archive` transition |
| `TableSpec.ArchiveStoresContents` | test/Table_test.c:228-231 | when the table holds at least as many records as its file, the file afterwards holds exactly the table's records (5 for a new file, 2 + 5 = 7 for one holding 2) |
| `TableSpec.ArchiveTwice` | test/Table_test.c:256-259 | with the file kept bound after archiving (the model's choice), a second archive in a row returns the same value as the first (`len` on a bound table) and leaves the file and the table as they were |
| `TableSpec.ArchiveThenReopen` | test/Table_test.c:162-168 | a new table on the file written by archive_table holds the same records, slot by slot, as the archived table |
| `TableSpec.Load` | test/Table_test.c:358-377 | load_table(NULL) returns len and changes nothing; with a file it binds it, clears every residency bit, sets len to its record count (capped), holds the file's records, drops unarchived adds, and returns the new len |
| `Tables.Table.Load` | test/Table_test.c:379-403 | opens the named file, clears `cacheMap`, and rebinds `fp` and `fileName`, making exactly the `TableSpec.Load` transition |
| `Files.FileSystem.Open` | test/Table_test.c:134-148 | opening an existing name returns its file and changes nothing; a missing name gets a fresh empty file |
| `Files.FileSystem.Write` | test/Table_test.c:14-26 | writing a sample file names a fresh file holding exactly the given records |
| `TableTests.NewTableWithoutFile` | test/Table_test.c:268-279 | a new table without a file has capacity MaxTableSize, len 0, no resident slot, no file, and archive_table returns 0 |
| `TableTests.NewTableWithFile` | test/Table_test.c:150-172 | a new table on a file of n records (or a missing file, n = 0) has len n, no resident slot, is bound under the given name, and the file still has n records |
| `TableTests.AddResidency` | test/Table_test.c:94-117 | after n adds every add returned 1 and len is stored + n; the added slots are resident, the stored ones are not |
| `TableTests.AddThenGet` | test/Table_test.c:325-356 | after adds, reading every slot returns the stored records followed by the added ones, and every slot is then resident |
| `TableTests.FillTable` | test/Table_test.c:195-209 | MaxTableSize adds return 1, the next returns something other than 1, and len is MaxTableSize |
| `TableTests.AddUserFail` | test/Table_test.c:187-193 | add_User with a NULL table, a NULL user or both never returns 1 |
| `TableTests.ArchiveAfterAdds` | test/Table_test.c:240-266 | archiving after adds returns stored + added and the file holds the stored records followed by the added ones |
| `TableTests.LoadAfterAdds` | test/Table_test.c:379-403 | loading a file of n records into a table holding unarchived adds returns n, sets len to n, binds the file by name and leaves no slot resident |
| `TableTests.LoadNothing` | test/Table_test.c:405-426 | load_table(NULL) after n adds returns n, keeps len n, binds no file and keeps the added slots resident |
| `Commands.Command.constructor` | test/Command_test.c:7-13 | new_Command: kind UNRECOG_CMD, no buffer, argsLen 0, argsCap 0 |
| `Commands.Command.FromFields` | test/Command_test.c:41-44 | a command written field by field holds exactly the given arguments in a full buffer |
| `Commands.Command.AddArg` | test/Command_test.c:16-39 | add_Arg returns 0 unless the buffer must grow and its allocation fails; on success the argument is appended at position argsLen-1 and argsCap grows by 5 exactly when the buffer was full; on failure nothing changes; the stepped capacity is kept |
| `Commands.Command.Grow` | test/Command_test.c:28-35 | moving into a new buffer keeps the arguments and adds 5 slots |
| `Commands.ArgCapacity` | test/Command_test.c:21-35 | the stepped capacity for n arguments is a multiple of 5 in [n, n+5) |
| `Commands.ArgCapacityAfterAppend` | test/Command_test.c:28-35 | appending to a buffer at the stepped capacity keeps it stepped: same capacity when there was room, 5 more when it was full |
| `Commands.Command.HandleInsertCmd` | test/Command_test.c:41-49 | handle_insert_cmd returns nonzero exactly on a QUERY_CMD command whose five arguments start with "insert", and then retags it INSERT_CMD; otherwise the kind is unchanged |
| `CommandTests.NewCommand` | test/Command_test.c:7-13 | a new command is unrecognized with no buffer and zero length and capacity |
| `CommandTests.AddSixArgs` | test/Command_test.c:16-39 | if the first append succeeds it returns 0 with ["test1"] in 5 slots, and six appends give test1..test6 in order in 10 slots; if it fails there is still no buffer |
| `CommandTests.HandleInsert` | test/Command_test.c:41-49 | the query `insert 1 user1 user1@example.com 21` is retagged INSERT_CMD with a nonzero result |

## Left out

- Failures of opening, reading or writing a file: every file operation succeeds, so `new_Table` and `get_User` never return NULL and `archive_table` never stops partway.
- Real file I/O (`fopen`, `fwrite`, `fseek`, `fread`, `stat`, `fclose`, `remove`): a file is a sequence of records, and its size is counted in records rather than in bytes of `sizeof(User_t)`.
- Whether `archive_table` rewrites the stored records or only appends: the model appends, and the tests check only the result and the file's length.
- `get_User` for an index at or beyond `len` is untested; it is a precondition here.
- `get_User` returns a pointer into `table->users`, through which a caller could change a slot; the model returns a copy of the record.
- TableSpec.ArchiveTwice: states the model's choice that the file stays bound after `archive_table`, so a second call returns `len`; if `archive_table` released the file, a second call would return 0 instead. Either way the file is unchanged.
- The fixed-width, truncating `name` and `email` fields (`MAX_USER_NAME`, `MAX_USER_EMAIL`, `snprintf`): they are opaque strings.
- Memory allocation failure in the table, and failure of `strdup` in `add_Arg`: only the growth of the argument buffer may fail, chosen by a parameter.
- Parsing and validation of the insert fields in `handle_insert_cmd`, and any use of the table from it: not visible in the tests.
- The command kinds other than UNRECOG_CMD, QUERY_CMD and INSERT_CMD, the command parser, and the CLI and REPL.
- The gtest harness, and files left behind by one test for the next.
