# rlcp core in Dafny

This project models three sequential parts of rlcp, the remote Linux command processor:

- **The client's command-line parser.** `ParseCommand` decides between help, `run`, `status`, `output` and `stop`, or fails with one of three messages. `splitArguments` is the quote-aware tokenizer that turns the `run` argument into an argument vector.
- **One job's output log.** Every block the command produces is:
  - sent to each attached listener;
  - appended to an in-memory buffer;
  - written out as chunk file `<id>_<n>.log` once the buffer reaches the size threshold.

  A listener that attaches later is first sent every chunk, then the buffer.
- **The in-memory directory of users and jobs.** It holds the permission rule and the job map.

The files are:

| file | module | models |
|---|---|---|
| `cli.dfy` | `Cli` | `cmd/cli/cli.go` |
| `storage.dfy` | `Storage` | `cmd/server/internal/storage/storage.go` |
| `mem_storage.dfy` | `MemStorage` | `cmd/server/internal/storage/mem_storage.go` |
| `decimal.dfy` | `Decimal` | Go's `%d` formatting, with its inverse; chunk file names use it |
| `seqs.dfy` | `Seqs` | concatenation of a sequence of blocks |
| `wrappers.dfy` | `Wrappers` | `Option` |

## How the model is built

**Parser.** Everything is a pure function. `uuid.Parse` is replaced by the parameter `isUuid`, which says whether a job id parses.

**Tokenizer.** `Cli.Step` is one iteration of the source's `switch` over a character. It acts on the state (quote stack, pending argument, finished arguments). `Cli.Scan` folds `Step` over the trimmed input, and `Cli.Finish` adds the last pending argument.

The tokenizer's behaviour is stated against two independent reference definitions:
- `Cli.Fields`: split on spaces and drop empty fields;
- `Cli.QuotedText`: the text of an outer-quoted region at any depth of nesting. Every character is kept, inner quotes included, except that a backslash is dropped where only the outer quote is open. `Cli.Nest` tracks the stack of open quotes: a quote equal to the innermost open one closes it, and any other quote opens a new level. `Cli.Enclosed` says that a body never closes the outer quote and closes every quote it opens.
- `Cli.Unquote`: the same text in the two-level case, where the body does not contain the outer quote. `Cli.TwoLevels` proves that it agrees with `QuotedText`.

**Job log.**
- A `Storage.Job` holds an id, a status, a `CmdLog` (number of chunks written and the buffer) and its listeners.
- A listener channel is modelled as the sequence of blocks sent on it.
- The working directory is a map from file name to contents.
- How a flush ends is the parameter `WriteResult`: the open fails and no file is created, or the write succeeds, or it fails after some bytes reached the file.
- The job's mutex makes each operation one atomic step here.

The central invariant is `Storage.Valid(job, disk, history)`. It holds when:
- chunk files `0 .. nFiles-1` exist;
- their contents followed by the buffer equal `history`, every byte ever produced, in order;
- every listener has been sent exactly `history`.

**Output pump.** `executor.go` calls `ProcessOutput` once per read and ignores the error. `Storage.ProcessAllWith` models this pump for either open mode. `Storage.ProcessAll` is the pump over the truncating ProcessOutput.

**Open mode.** `persistLog` opens the chunk file with `O_APPEND`; `Storage.ProcessOutputAsWritten` models that. With that mode a write that fails part-way corrupts the log (see "## Findings"). `Storage.ProcessOutput` opens the file with `O_TRUNC` instead: this is the corrected version, and most invariant lemmas are proved about it. The `AppendMode…` lemmas state exactly when the as-written version keeps the invariant.

## Model

| member | source | states |
|---|---|---|
| Cli.ParseCommand | cmd/cli/cli.go:80-113 | Any failure returns the zero Option. A vector whose length is not 2 or 3 fails with "invalid command". With two words, the result is Help exactly when the second word is `--help`; otherwise it fails with "invalid option: <word>". An unknown operation word fails with "invalid option: <word>". `run` always succeeds and carries the tokenized command. "invalid job id" is reported exactly for status/output/stop with a non-UUID id. |
| Cli.ValidateOperation | cmd/cli/cli.go:167-178 | Succeeds exactly when the id is a UUID, and then the Option carries that single id. Otherwise it returns the zero Option and "invalid job id". |
| Cli.ParseCommandAccepts | cmd/cli/cli.go:80-113 | The parser succeeds on exactly the vectors in the usage text: `--help`, `run <cmd>`, and `status/output/stop <uuid>`. The returned operation is the one the word names. |
| Cli.ParseCommandErrorTable | cmd/cli/cli_test.go:18-42 | The test-table rows for `--help`, `-help`, an unknown operation and a four-word vector. |
| Cli.ParseCommandJobIdTable | cmd/cli/cli_test.go:75-116 | The six test-table rows for `status`, `output` and `stop`, each with its own valid id and with "invalid-uuid". |
| Cli.TrimLeft | cmd/cli/cli.go:118 | The result is a suffix of the input without a leading space. Only spaces were removed. |
| Cli.TrimRight | cmd/cli/cli.go:118 | The result is a prefix of the input without a trailing space. Only spaces were removed. |
| Cli.ScanConcat | cmd/cli/cli.go:125-160 | Running the loop over `x + y` is running it over `x`, then over `y` from the state reached. |
| Cli.ScanUnquoted | cmd/cli/cli.go:125-135 | Outside quotes, the loop never opens a quote. It finishes with exactly the non-empty space-separated words of the input, with backslashes removed. |
| Cli.SplitUnquoted | cmd/cli/cli.go:117-165 | On a command without quotes, splitArguments equals the reference `Fields` applied after dropping every backslash. |
| Cli.SplitPlainWords | cmd/cli/cli.go:127-135 | Without quotes or backslashes, splitArguments is split-on-spaces with empty fields dropped. No element is empty or contains a space. |
| Cli.NoBackslashUnchanged | cmd/cli/cli.go:136-139 | Dropping backslashes from text that has none changes nothing. |
| Cli.QuotedStep | cmd/cli/cli.go:136-156 | One character inside an outer quote, other than that quote, is handled as follows. A backslash is kept only at stack depth 2. A quote of the other kind is kept, and it pushes or pops the inner quote. Any other character is kept. |
| Cli.ScanQuotedBody | cmd/cli/cli.go:125-160 | The two-level case: inside an outer quote whose body does not contain that quote, the loop appends exactly `Unquote(body)` to the pending argument, and leaves the stack with the outer quote at its bottom. |
| Cli.NestedStep | cmd/cli/cli.go:126-159 | One character inside a quoted region that it does not close: the stack changes as `Nest` says, and the character is appended unless it is a backslash at depth 1. |
| Cli.ScanNested | cmd/cli/cli.go:125-160 | Inside a quoted region that stays open, at any depth, the loop appends exactly the reference `QuotedText(body)` to the pending argument and ends with the stack `NestAfter` gives. |
| Cli.TwoLevels | cmd/cli/cli.go:146-152 | When the body does not contain the outer quote, the stack stays at depth 1 or 2, and `QuotedText` equals the two-level `Unquote`. |
| Cli.NestConcat | cmd/cli/cli.go:146-152 | The quote stack, and whether the region stays open, compose across the parts of a body. |
| Cli.QuotedTextNoBackslash | cmd/cli/cli.go:136-139 | Without backslashes, a quoted region reaches the argument verbatim, quotes of every depth included. |
| Cli.ScanQuotedRegion | cmd/cli/cli.go:125-160 | An outer quote pair opened and closed outside quotes yields exactly one more argument, the `QuotedText` of its body at any depth of nesting, and leaves nothing pending. |
| Cli.SplitQuotedLast | cmd/cli/cli.go:115-165 | Plain words, a space, then one outer-quoted region with quotes nested to any depth: the words of the plain part, then one argument, the body with its outer quotes removed and inner quotes kept. |
| Cli.SplitQuoted | cmd/cli/cli.go:115-165 | A command that is one outer-quoted region, with quotes nested to any depth, gives exactly one argument: its `QuotedText`. |
| Cli.ThreeLevelsEnclosed | cmd/cli/cli.go:146-152 | In a double-quoted body holding a single-quoted part that holds a double-quoted part, each inner quote opens or closes its level, so the body never closes the outer quote and ends at depth 1. |
| Cli.SplitThreeLevels | cmd/cli/cli.go:115-165 | A double-quoted region holding a single-quoted part that itself holds a double-quoted part is one argument, with every inner quote kept. |
| Cli.ThreeLevelsExample | cmd/cli/cli.go:146-152 | `"a 'b "c" d' e"` gives the single argument `a 'b "c" d' e`. |
| Cli.UnquotePlain | cmd/cli/cli.go:135-158 | Without backslashes or inner quotes, spaces and other characters inside quotes reach the argument unchanged. |
| Cli.UnquoteNoBackslash | cmd/cli/cli.go:146-158 | Without backslashes, an outer-quoted body reaches the argument verbatim, inner quotes included. |
| Cli.InnerOpenAfterConcat | cmd/cli/cli.go:146-152 | Inner-quote pushes and pops compose across the parts of a body. |
| Cli.ClosedInnerQuote | cmd/cli/cli.go:146-152 | A body with one matched pair of inner quotes leaves no inner quote open. |
| Cli.FieldsThen | cmd/cli/cli.go:127-134 | A plain first word followed by a space is the first field, then the fields of the rest. |
| Cli.SplitWordThen | cmd/cli/cli.go:127-134 | On text without quotes or backslashes, splitArguments of `word + " " + rest` is `[word]` followed by splitArguments of the rest. |
| Cli.SplitWordThenQuoted | cmd/cli/cli.go:117-165 | A plain word and then an outer-quoted body without backslashes, with quotes nested to any depth, give two arguments; the second is the body as written. |
| Cli.SplitTwoWordsThenNested | cmd/cli/cli.go:140-156 | Two plain words and then a double-quoted text holding one single-quoted part give three arguments. The inner single quotes are kept. |
| Cli.RunOneWordTable | cmd/cli/cli_test.go:43-50 | `run pwd` gives `["pwd"]`. |
| Cli.RunPlainWordsTable | cmd/cli/cli_test.go:51-58 | `run "ls -la ../"` gives `["ls", "-la", "../"]`. |
| Cli.RunQuotedTable | cmd/cli/cli_test.go:59-66 | `echo 'my name is jonas'` gives `["echo", "my name is jonas"]`. |
| Cli.RunNestedQuotesTable | cmd/cli/cli_test.go:67-74 | `sh -c "echo 'my name is jonas'"` gives `["sh", "-c", "echo 'my name is jonas'"]`. |
| Decimal.RoundTrip | cmd/server/internal/storage/storage.go:189 | Parsing the `%d` text of a chunk index gives the index back. |
| Decimal.FromNatInjective | cmd/server/internal/storage/storage.go:189 | Different indexes have different `%d` texts. |
| Storage.NewJob | cmd/server/internal/storage/storage.go:67-76 | A new job is Running, with no chunks, an empty buffer and no listeners. |
| Storage.String | cmd/server/internal/storage/storage.go:127-140 | The four statuses map to their names. The result is "Undefined" exactly for every other value. |
| Storage.StringDistinguishesStatuses | cmd/server/internal/storage/storage.go:28-33 | The four statuses have four different names, none of them "Undefined". |
| Storage.ChunkFileName | cmd/server/internal/storage/storage.go:189 | The name is the job id, `_`, the `%d` text of the index and `.log`. |
| Storage.ChunkFileNameInjective | cmd/server/internal/storage/storage.go:189 | Two chunk indexes of one job never share a file name. |
| Storage.AppendBytes | cmd/server/internal/storage/storage.go:143-146 | The buffer becomes the old buffer followed by the new bytes, and nothing else changes. |
| Storage.ReadLogBuffer | cmd/server/internal/storage/storage.go:170-185 | The blocks are non-empty and at most 1024 bytes. All but the last are exactly 1024 bytes. Their concatenation is the buffer. |
| Storage.ReadFile | cmd/server/internal/storage/storage.go:149-168 | Fails exactly when the file is missing. Otherwise its blocks are non-empty, at most 1024 bytes, and concatenate to the file. |
| Storage.PersistLog | cmd/server/internal/storage/storage.go:188-201 | Succeeds exactly when the open and the write do. A failed open leaves the disk unchanged. Otherwise chunk file `nFiles` holds what the open mode kept, followed by the bytes that reached it. No other file changes. |
| Storage.ProcessOutputWith | cmd/server/internal/storage/storage.go:78-99 | Every listener is sent the block, and the set of listeners is unchanged. The call fails exactly when the buffer reached the threshold and the open or the write failed. A failure marks the job Errored and keeps the appended buffer and nFiles. After success the buffer is below the threshold. nFiles grows by one exactly when the buffer reached the threshold and the write succeeded, and the buffer is then emptied. Unless the open failed, the file of chunk nFiles receives the buffer as far as the write got. Below the threshold, or when the open fails, the disk is untouched. |
| Storage.NewJobValid | cmd/server/internal/storage/storage.go:67-76 | A new job satisfies the log invariant with nothing produced. |
| Storage.ListenersFollowOutput | cmd/server/internal/storage/storage.go:82-84 | Sending a block to every listener keeps each one's stream equal to the log. |
| Storage.ChunksExtendedByNextWrite | cmd/server/internal/storage/storage.go:188-201 | Writing chunk n leaves chunks 0..n-1 intact and extends their concatenation by chunk n. |
| Storage.ProcessOutputKeepsChunks | cmd/server/internal/storage/storage.go:85-96 | After the truncating ProcessOutput (the corrected version in "## Findings"), the chunks followed by the buffer hold the old history followed by the new block. |
| Storage.ProcessOutputPreservesLog | cmd/server/internal/storage/storage.go:78-99 | The truncating ProcessOutput (the corrected version in "## Findings") preserves the log invariant whether or not the write succeeds. |
| Storage.ProcessAllPreservesLog | cmd/server/internal/executor/executor.go:51-54 | For the pump over the truncating ProcessOutput (the corrected version in "## Findings"): after any sequence of reads, the error of each one ignored, the chunks and buffer replay exactly what was read, and every earlier listener has been sent all of it. |
| Storage.ListenerFromStartSeesEverything | cmd/server/internal/storage/storage.go:78-99 | With the truncating ProcessOutput (the corrected version in "## Findings"), a listener attached to a fresh job receives exactly the concatenation of all output. |
| Storage.RegisterListener | cmd/server/internal/storage/storage.go:101-125 | Succeeds exactly when chunks 0..nFiles-1 can all be read. On success, the blocks sent are the chunks in order and then the buffer, each at most 1024 bytes, and the listener is added exactly once. On failure the job is unchanged, and what was sent is the chunks before the first missing one. On a valid job, the listener is sent the full log so far and the invariant still holds. |
| Storage.TwoByteThresholdExample | cmd/server/internal/storage/storage.go:87-96 | With the truncating ProcessOutput and threshold 2, "ab" reaches the threshold and becomes chunk 0, then "cd" alone reaches it and becomes chunk 1, and the buffer ends empty. |
| Storage.ThreeByteThresholdExample | cmd/server/internal/storage/storage.go:87-96 | With the truncating ProcessOutput and threshold 3, "ab" stays buffered, and "cd" brings the buffer to four bytes, which are written as one chunk. |
| Storage.AppendModeDuplicatesAfterPartialWrite | cmd/server/internal/storage/storage.go:188-201 | With the file opened for appending, a one-byte partial write followed by the next call leaves chunk 0 holding "aabc", which breaks the invariant. |
| Storage.TruncateModeAfterPartialWrite | cmd/server/internal/storage/storage.go:188-201 | With the file rewritten from scratch, the same two calls leave chunk 0 holding "abc", and the invariant holds. |
| Storage.AppendModeKeepsLogIff | cmd/server/internal/storage/storage.go:78-99 | With the file opened for appending as `persistLog` opens it, one call keeps the log invariant exactly when it does not complete a flush onto bytes already in chunk file nFiles. |
| Storage.AppendModePreservesLog | cmd/server/internal/storage/storage.go:188-201 | With the file opened for appending, a call whose write does not stop part-way keeps the invariant, and leaves no bytes in chunk files from nFiles on if there were none before. |
| Storage.AppendModePumpPreservesLog | cmd/server/internal/executor/executor.go:51-54 | The pump over the appending ProcessOutput keeps the invariant as long as no write stops part-way and no chunk file from nFiles on held bytes at the start. |
| Storage.AppendModeRetryAfterPartialWrite | cmd/server/internal/storage/storage.go:188-201 | With the file opened for appending, on any valid job a flush whose write stops after n > 0 bytes keeps the invariant for now. The next call then flushes the same buffer again, and it breaks the invariant whatever it reads. |
| MemStorage.NewMemStorage | cmd/server/internal/storage/mem_storage.go:27-83 | The directory holds one Write user and one Read user with the seeded e-mails, each filed under its own id, and no jobs. |
| MemStorage.GetUserId | cmd/server/internal/storage/mem_storage.go:36-43 | Finds an id exactly when some user has the e-mail, and the id belongs to such a user. Otherwise it returns "". |
| MemStorage.Authorized | cmd/server/internal/storage/mem_storage.go:45-56 | An unknown user is refused. A Read user may do exactly Status and Output. A Write user may do everything. |
| MemStorage.SaveJob | cmd/server/internal/storage/mem_storage.go:58-60 | The job is stored under its id, the other jobs are unchanged, and the users are untouched. |
| MemStorage.GetJob | cmd/server/internal/storage/mem_storage.go:62-65 | Finds a job exactly when the id is stored, and then returns the stored job. |
| MemStorage.SaveThenGet | cmd/server/internal/storage/mem_storage.go:58-65 | A saved job is found under its id, and lookups of other ids are unchanged. |
| MemStorage.GetJobFindsOnlySaved | cmd/server/internal/storage/mem_storage.go:58-65 | After a series of saves, GetJob finds exactly the ids that were present before or saved since. |
| MemStorage.FoundUserIsKnown | cmd/server/internal/storage/mem_storage.go:36-56 | In a directory where every user is filed under its own id, the id GetUserId returns names a stored user, who may read jobs. |
| MemStorage.SeededPermissions | cmd/server/internal/storage/mem_storage.go:45-83 | In the seeded directory, the Write user may run jobs, and the Read user may not run or stop them but may read output. |

## Left out

- Storage.ProcessOutputWith: the threshold is a positive parameter so that small examples can be stated. The source's value is `LogFileSize` (1 MiB, storage.go:17-19), and every property holds for any positive threshold.
- Storage.RegisterListener: the source releases the mutex while it reads files and then re-checks `nFiles`. That retry loop is run here as one pass over a job that does not change meanwhile, because concurrency is not modelled.
- Storage.RegisterListener: a missing chunk file is the only read error modelled. An error in the middle of a file is not modelled; it would end the call in the same way.
- Storage.ReadLogBuffer: the source loops forever if the reader returned 0 bytes without an error, which `bytes.Reader` never does. The model ends at the end of the buffer.
- Concurrency is not modelled: the job mutex, unbuffered channels and goroutines. Each operation is one atomic step, and a channel is the list of blocks sent on it.
- `uuid.Parse`, `uuid.New` and `uuid.NewString` are replaced by the parameter `isUuid` and by id parameters.
- File I/O is abstracted:
  - open, read and write are a map from file name to contents plus `WriteResult`;
  - the reuse of one 1024-byte slice for every block sent is not modelled; each block is a value.
- `slog` logging is left out. It has no effect on results.
- Go's nil and empty slices are not distinguished. `Option{}` is `Option(Run, [])`, because `Run` is the zero operation.
- MemStorage.Authorized: `Permission` is a Go `uint`. A role value other than Read or Write is not modelled; the source would treat it like Write.
- `job.Cmd`, the process handle, is not modelled. `executor.go` is modelled only through the pump loop `ProcessAll`, which calls ProcessOutput per read and ignores its error. Setting `Completed` at end of file is not modelled.
- The gRPC server, TLS, the client's `main` and `HelpPrompt` text are not part of this model.
- Cli: Go's `for _, r := range cmd` (cli.go:125) decodes the string as UTF-8 and turns each invalid byte into U+FFFD. `Cli` works on `seq<char>`, so a line that is not valid UTF-8 is not modelled.
- MemStorage.SaveJob: the source stores a `*Job`, so a job changed after it was saved, as server.go and the executor change it, is what `GetJob` later returns. The model stores the job by value, so `GetJob` returns the job as it was when saved.
- MemStorage.Authorized: `storage.Operation` is a Go `uint`, narrowed here to the four named operations. In Go, a Read user is allowed every value other than Run and Stop.

## Findings

| source | as written | input that shows it | evidently intended | confidence | as-written member | corrected member |
|---|---|---|---|---|---|---|
| cmd/server/internal/storage/storage.go:188-201 | `persistLog` opens chunk file `nFiles` with the flags `O_APPEND` and `O_CREATE`. When a write fails part-way, the bytes that reached the file stay there, and `nFiles` and the buffer are unchanged. The pump ignores the error (executor.go:54) and calls ProcessOutput again, which appends the whole buffer after those bytes. | Threshold 2: output "ab" whose write stores only "a" and fails, then output "c" whose write succeeds. Chunk 0 holds "aabc", and a replay sends "aabc" instead of "abc". | Each flush writes the chunk from scratch (`O_TRUNC`), so that chunks plus buffer always equal the output. | not executed | Storage.AppendModeDuplicatesAfterPartialWrite | Storage.TruncateModeAfterPartialWrite |

In the model, `Storage.ProcessOutputAsWritten` opens the file in `Append` mode, as `persistLog` does. `Storage.ProcessOutput` uses `Truncate` mode, and the invariant lemmas are proved about it. Beyond the one example, `Storage.AppendModeRetryAfterPartialWrite` shows the as-written failure on every valid job. `Storage.AppendModeKeepsLogIff` shows that completing a flush onto bytes left by such a write is the only way the as-written version breaks the invariant.
