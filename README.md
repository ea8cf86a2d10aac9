# Firebird UNIX page I/O, modelled in Dafny

This project models the physical page-I/O layer that Firebird's engine uses on POSIX
systems (`src/jrd/os/posix/unix.cpp`): the chain of backing files ("segments") of a
database, the translation of a page number to a file and byte offset, the bounded
retry loops around `pread`/`pwrite`/`open`, the bulk zero-fill of new pages, the
open-flag and write-mode bookkeeping, the attach handshake that builds the database
lock, the status-vector record of `unix_error`, and the header checks applied to a
raw device.

Every system call is an oracle passed in as a function parameter, indexed by the
attempt number (and, for the zero-fill, by the batch's first page): a transfer
yields `Full`, `Short(n)`, `Interrupted` or `HardError(errno)`; an open yields a
descriptor, an interruption or a refusal. A routine's outcome is
`Value(v)` (its ordinary result), `Reported(e)` (a status vector was given,
`unix_error` filled it and the routine returned its failure value: `false`, `0` or
null) or `Thrown(f)` (`ERR_post` or `CORRUPT` raised). ULONG page arithmetic is
written out modulo 2^32 and USHORT sequence numbers modulo 2^16. The build modelled is
the positioned-I/O one (`PREAD_PWRITE`), with `FCNTL_BROKEN` defined as in the file
(so `PIO_force_write` reopens the file).

Modules, in dependency order:

- `PioTypes` (`pio_types.dfy`): constants (`IO_RETRY` = 20, the 128 KiB zero
  buffer, page-size bounds and header constants of the on-disk format), the segment
  record, syscall results, errors and outcomes.
- `Status` (`status.dfy`): `unix_error` over an `array` status vector, the
  eleven-slot record, and its decoding.
- `FileChain` (`file_chain.dfy`): `seek_file` as a walk over `seq<Segment>`,
  well-formed chains, the append of `PIO_add_file`, the close of `PIO_close`, and
  `PIO_get_number_of_pages`.
- `OpenFlags` (`open_flags.dfy`): the flags of `openFile` and `PIO_create`, and the
  mode bits `PIO_force_write` maintains.
- `Retry` (`retry.dfy`): the retry loops of `PIO_read`, `PIO_write`, `PIO_header`
  and `openFile`, each a method with a `while` loop proved equal to a specification
  function stated through the first attempt that ends the loop.
- `ZeroFill` (`zero_fill.dfy`): `PIO_init_data`, its guard, batching and count.
- `Header` (`header.dfy`): the raw-device header plausibility test and the
  single-user shutdown test.
- `Pio` (`database.dfy`): class `Database`, holding `dbb_flags`, `dbb_lock`, the
  file chain of the database page space and a log of closed descriptors, with
  `PIO_add_file`, `PIO_close`, `PIO_create`, `PIO_open`, `PIO_force_write`,
  `setup_file` and `maybeCloseFile` as methods.

Behaviour of the code worth noting:

- On a hard write error `PIO_init_data` returns `unix_error`'s result (0, or it
  raises), not the number of pages written so far.
- Its batches are capped by the pages left to do, not by the pages left in the
  segment: only the loop condition looks at `fil_max_page`, so the last batch can run
  past the segment's end (`ZeroFill.ZeroFillPassesSegmentEnd`).
- Its loop never crosses into the next segment. Every batch starts at a page below
  `fil_max_page`, so the re-seek of each batch lands on the segment found first
  (`ZeroFill.BatchesInRange`).
- The shutdown test of `setup_file` runs only while waiting for the shared lock.
  A connection that gets the exclusive lock at once never reads the header.
- The `bytes == 0` branch after `PIO_header`'s loop is dead. Only interruptions are
  retried, so an exhausted loop always ends with `-1` and raises `read_retry`
  (`Retry.HeaderExhaustionRaises`).
- The `return 0` of `PIO_add_file` cannot be reached, because `PIO_create` raises
  instead of returning null.

## Model

| member | source | states |
|---|---|---|
| Status.StatusRecord | src/jrd/os/posix/unix.cpp:1079-1090 | the record has eleven slots, opening with the gds argument and the I/O-error code and closing with the end marker |
| Status.DecodeStatusRecord | src/jrd/os/posix/unix.cpp:1079-1090 | reading the record back yields exactly the call, file, failure kind and errno that would otherwise be raised, whatever follows it in the vector |
| Status.Classify | src/jrd/os/posix/unix.cpp:1078-1108 | a failure is reported exactly when a status vector is given, and raised with the same content otherwise; `unix_error` never yields success |
| Status.UnixError | src/jrd/os/posix/unix.cpp:1062-1109 | with a vector, slots 0-10 hold the record and later slots are unchanged; without one, it raises |
| PioTypes.NewSegment | src/jrd/os/posix/unix.cpp:978-981 | a new file block covers pages 0 to `-1UL`, has no fudge and no flags, and holds the given descriptor and name |
| FileChain.FindHolder | src/jrd/os/posix/unix.cpp:862-869 | the index of the first segment at or after the start whose `[min, max]` holds the page, or the chain length when none does |
| FileChain.WellFormed | src/jrd/os/posix/unix.cpp:172-180 | the chain shape `PIO_add_file` keeps: a primary file from page 0, non-empty ranges each ending just before the next begins, and an unbounded last file |
| FileChain.RelativePage | src/jrd/os/posix/unix.cpp:877 | the page number relative to its file, `page - (min - fudge)` computed in ULONG arithmetic |
| FileChain.FitsOffT | src/jrd/os/posix/unix.cpp:879-882 | the byte offset survives the cast to `off_t`: always with a 64-bit `off_t`, and exactly below 2^31 with a 32-bit one |
| FileChain.SeekFile | src/jrd/os/posix/unix.cpp:845-902 | `CORRUPT(158)` exactly when no segment holds the page; otherwise the first holder, rejected with an `lseek` access error when its descriptor is -1 or a 32-bit-exceeded error when the offset overflows `off_t`, else returned with offset `(page - (min - fudge)) * page_size` |
| FileChain.RelativePageExact | src/jrd/os/posix/unix.cpp:877 | the ULONG page correction equals `(page - min + fudge) mod 2^32`, and is exact when that fits |
| FileChain.SeekFromFound | src/jrd/os/posix/unix.cpp:730-732 | re-seeking from the segment a seek returned gives the same segment and offset, so the retry loops' re-seek is stable |
| FileChain.RangesOrdered | src/jrd/os/posix/unix.cpp:172-180 | in a chain built by appends, each segment's pages lie wholly below every later segment's |
| FileChain.UniqueOwner | src/jrd/os/posix/unix.cpp:862-869 | in such a chain a page has exactly one holder, and the walk from the primary finds it |
| FileChain.SomeOwner | src/jrd/os/posix/unix.cpp:862-869 | in such a chain every page has a holder |
| FileChain.ResolveWellFormed | src/jrd/os/posix/unix.cpp:862-884 | resolving in such a chain never reports corruption, and a successful seek lands on the unique owner at `(page - min + fudge) * page_size` |
| FileChain.Append | src/jrd/os/posix/unix.cpp:172-180 | the chain after `PIO_add_file`: earlier segments unchanged, the former last one ending at `start - 1` (ULONG), the new one starting at `start` |
| FileChain.AppendWellFormed | src/jrd/os/posix/unix.cpp:172-180 | appending an unbounded segment past the last segment's first page keeps the chain well formed, the two segments adjacent at `start` |
| FileChain.AppendResolves | src/jrd/os/posix/unix.cpp:172-180 | after the append, pages from `start` on resolve to the new segment and earlier pages to their former owner |
| FileChain.TwoSegmentsShape | src/jrd/os/posix/unix.cpp:172-180 | adding a file at page 100 to a fresh primary gives segments 0..99 and 100..`0xFFFFFFFF`, well formed |
| FileChain.LastPrimaryPage | src/jrd/os/posix/unix.cpp:862-884 | in that chain page 99 resolves to the primary at byte `99 * 1024` |
| FileChain.FirstSecondaryPage | src/jrd/os/posix/unix.cpp:862-884 | in that chain page 100 resolves to the second file at byte 0 |
| FileChain.CloseOne | src/jrd/os/posix/unix.cpp:202-205 | a segment after closing: a descriptor other than 0 and -1 becomes -1, every other field as before |
| FileChain.IsOpenDesc | src/jrd/os/posix/unix.cpp:202 | the descriptor `PIO_close` closes: neither 0 nor -1 |
| FileChain.CloseAll | src/jrd/os/posix/unix.cpp:201-206 | the chain after `PIO_close` is the chain with each segment closed in place |
| FileChain.OpenDescs | src/jrd/os/posix/unix.cpp:201-206 | the descriptors passed to `close` are all open ones, at most one per segment |
| FileChain.NoneOpen | src/jrd/os/posix/unix.cpp:202 | a chain without an open descriptor closes nothing |
| FileChain.CloseAllIdempotent | src/jrd/os/posix/unix.cpp:201-206 | a second `PIO_close` closes nothing and changes nothing |
| FileChain.OpenDescsStep | src/jrd/os/posix/unix.cpp:201-206 | closing one more segment adds that segment's descriptor, if open, after the others |
| FileChain.OpenDescsComplete | src/jrd/os/posix/unix.cpp:201-206 | every open descriptor of the chain is closed |
| FileChain.NumberOfPages | src/jrd/os/posix/unix.cpp:386-420 | a closed descriptor or failing `fstat` raises an `fstat` access error, carrying fstat's errno when it failed; otherwise the result is the ceiling of size / page size, as ULONG |
| FileChain.CeilDivision | src/jrd/os/posix/unix.cpp:419 | that quotient is the least page count covering the file |
| OpenFlags.OpenFileFlagsFaithful | src/jrd/os/posix/unix.cpp:918-927 | `openFile`'s flags are binary, read-write or read-only but never both, never create, truncate or exclusive, and carry the sync, direct and read-only request, which can be read back |
| OpenFlags.OpenFileFlagsInjective | src/jrd/os/posix/unix.cpp:918-927 | distinct requests compose distinct flags |
| OpenFlags.OpenFileFlags | src/jrd/os/posix/unix.cpp:918-927 | `openFile` opens binary, read-only or read-write as asked, and adds the sync flag when writes are forced and the direct flag when the filesystem cache is bypassed |
| OpenFlags.CreateFlags | src/jrd/os/posix/unix.cpp:235 | `PIO_create` opens read-write, creating, binary, truncating exactly when overwriting and exclusive exactly when not, without sync or direct |
| OpenFlags.CreateIsNotOpen | src/jrd/os/posix/unix.cpp:235 | creation flags never equal an ordinary open's |
| OpenFlags.ModesDiffer | src/jrd/os/posix/unix.cpp:349-352 | the reopen is needed exactly when the requested force-write or no-cache mode differs from the bit the file holds |
| OpenFlags.SetModes | src/jrd/os/posix/unix.cpp:378-380 | both mode bits are cleared and the requested ones set |
| OpenFlags.SetModesExact | src/jrd/os/posix/unix.cpp:378-380 | after the update the force-write and no-cache bits equal the request and every other bit is unchanged |
| OpenFlags.SetModesIdempotent | src/jrd/os/posix/unix.cpp:352 | an update to modes already held changes nothing, and repeating a request is a no-op |
| OpenFlags.ReopenMatchesModes | src/jrd/os/posix/unix.cpp:367-380 | the reopen asks for exactly the modes recorded afterwards and keeps the file's read-only access |
| Retry.PioRead | src/jrd/os/posix/unix.cpp:679-768 | the loop's result equals the read specification: a closed descriptor fails with a `read` error; a failed seek propagates; the first full read succeeds; a hard error fails at once (the intended reading of line 741, see ## Findings); on exhaustion a last read of zero bytes succeeds and anything else raises `read_retry` |
| Retry.PioWrite | src/jrd/os/posix/unix.cpp:771-842 | the loop's result equals the write specification: as the read, but exhaustion is success |
| Retry.PioHeader | src/jrd/os/posix/unix.cpp:423-506 | the loop's result equals the header specification: a closed descriptor raises `PIO_header`; interruptions retry; a full or short read is accepted; a hard error raises `read`; exhaustion raises `read_retry` |
| Retry.OpenFile | src/jrd/os/posix/unix.cpp:905-939 | the loop's result equals the open specification over the composed flags |
| Retry.ReadSpec | src/jrd/os/posix/unix.cpp:692-764 | the read outcome: a -1 descriptor reports `read`; a failed seek propagates; the first full read succeeds and a hard error before it reports `read` with its errno; after twenty short or interrupted reads, a last read of zero bytes succeeds and anything else raises `read_retry` |
| Retry.WriteSpec | src/jrd/os/posix/unix.cpp:784-841 | the write outcome: as the read, but a hard error reports `write` and twenty short or interrupted writes succeed |
| Retry.HeaderSpec | src/jrd/os/posix/unix.cpp:442-502 | the header outcome: a -1 descriptor raises `PIO_header`; the first attempt not interrupted decides, a full read giving the length, a short one its byte count, a hard error raising `read`; twenty interruptions raise `read_retry` |
| Retry.OpenSpec | src/jrd/os/posix/unix.cpp:918-938 | the `openFile` outcome: the descriptor of the first open that is not interrupted, or -1 if it is refused or all twenty are interrupted |
| Retry.ReadSpecAsWritten | src/jrd/os/posix/unix.cpp:723-764 | the read outcome as the code is written: only a full read stops the loop, so a hard error is retried; once the descriptor is open and the page resolves, the loop never reports a read error, and after twenty attempts anything but a last empty read raises `read_retry` |
| Retry.ReadAsWrittenAgrees | src/jrd/os/posix/unix.cpp:741 | without a hard error among the twenty attempts, the read as written and the model agree |
| Retry.HardErrorRetriedAsWritten | src/jrd/os/posix/unix.cpp:692-741 | a hard error (errno 5) followed by a full read: the code as written returns true, the model reports the `read` error |
| Retry.RetriedTransferSucceeds | src/jrd/os/posix/unix.cpp:730-743 | up to 19 short or interrupted attempts followed by a full one make both read and write succeed |
| Retry.ReadExhaustion | src/jrd/os/posix/unix.cpp:750-764 | twenty short or interrupted reads succeed exactly when the last read zero bytes, and otherwise raise `read_retry` |
| Retry.WriteExhaustion | src/jrd/os/posix/unix.cpp:820-841 | twenty short or interrupted writes still succeed |
| Retry.HardErrorFails | src/jrd/os/posix/unix.cpp:831-832 | a hard error before any full transfer fails the write with that errno, whatever comes later (lines 831-832), and fails the model's read the same way, which is the intended reading of lines 741-742 (see ## Findings) |
| Retry.WriteSucceedsIff | src/jrd/os/posix/unix.cpp:786-841 | a write succeeds exactly when the descriptor is open, the page resolves and every hard error is preceded by a full transfer |
| Retry.HeaderExhaustionRaises | src/jrd/os/posix/unix.cpp:488-502 | twenty interruptions always raise, never take the empty-read branch |
| Retry.HeaderAcceptsShort | src/jrd/os/posix/unix.cpp:475-486 | a short header read after interruptions is accepted at once with its byte count |
| Retry.OpenSpecDescriptor | src/jrd/os/posix/unix.cpp:929-938 | `openFile` yields a descriptor exactly when some attempt among the first twenty opens after only interruptions, and it is that attempt's descriptor |
| ZeroFill.BatchPages | src/jrd/os/posix/unix.cpp:571 | a batch is between 8 and 128 pages for every valid page size |
| ZeroFill.BatchesBound | src/jrd/os/posix/unix.cpp:567-568 | batch k starts exactly when fewer than the aimed-at pages precede it |
| ZeroFill.InitBy | src/jrd/os/posix/unix.cpp:567 | the loop aims at no more pages than requested |
| ZeroFill.TooNearStart | src/jrd/os/posix/unix.cpp:563 | the guard near a file's first page: `fil_min_page + 8 > startPage` in ULONG arithmetic |
| ZeroFill.ZeroFillCount | src/jrd/os/posix/unix.cpp:566-602 | the pages counted after a run without failure: whole batches up to or past `initBy`, capped by the request |
| ZeroFill.BatchWrite | src/jrd/os/posix/unix.cpp:570-592 | batch k of a run starts at `startPage + k * batch` and has the write loop's outcome there |
| ZeroFill.BatchesInRange | src/jrd/os/posix/unix.cpp:568-570 | every batch a run starts begins below `fil_max_page`, so below 2^32, and stays in the segment found first |
| ZeroFill.RunSpec | src/jrd/os/posix/unix.cpp:563-602 | the batches in order: the first failing one decides the outcome by its failure, and without a failure the result is the zero-fill count |
| ZeroFill.InitDataSpec | src/jrd/os/posix/unix.cpp:534-603 | `PIO_init_data`: a failed seek propagates, a start within eight pages of its file's first page returns 0, and otherwise the batches run |
| ZeroFill.ZeroFillCountBounds | src/jrd/os/posix/unix.cpp:564-602 | a run without failure returns at least the aimed-at pages and at most the request, overshooting by less than one batch, and a whole number of batches unless it is the whole request |
| ZeroFill.RunStopsAt | src/jrd/os/posix/unix.cpp:578-590 | the first failing batch decides the run's outcome |
| ZeroFill.RunCompletes | src/jrd/os/posix/unix.cpp:564-602 | a run without a failing batch returns the zero-fill count |
| ZeroFill.BatchStep | src/jrd/os/posix/unix.cpp:571-598 | after k batches the pages done are k whole batches, and one more batch adds `min(batch, left)` pages |
| ZeroFill.BatchExit | src/jrd/os/posix/unix.cpp:567-602 | when the loop ends, the batch count is the ceiling of the aimed-at pages over the batch size and the return value is the zero-fill count |
| ZeroFill.InitData | src/jrd/os/posix/unix.cpp:534-603 | the result equals the zero-fill specification: a failed seek propagates; a start within eight pages of the segment start returns 0; then the batches run |
| ZeroFill.WriteBatch | src/jrd/os/posix/unix.cpp:578-590 | one batch's retry loop has the write loop's outcome at the batch's first page |
| ZeroFill.InitRun | src/jrd/os/posix/unix.cpp:563-602 | the batch loop's result equals the run specification |
| ZeroFill.ShortBatchesCounted | src/jrd/os/posix/unix.cpp:578-598 | batches whose writes all fall short are still counted: the run returns the full count |
| ZeroFill.ZeroFillScenario | src/jrd/os/posix/unix.cpp:558-602 | at page size 4096 a batch is 32 pages, and ten pages from page 8 of a fresh file are all counted |
| ZeroFill.ScenarioBatchWritten | src/jrd/os/posix/unix.cpp:578-590 | in that scenario the single batch at page 8 is written on its first attempt |
| ZeroFill.ZeroFillScenarioResult | src/jrd/os/posix/unix.cpp:534-603 | in that scenario, with every write full, `PIO_init_data` returns 10 |
| ZeroFill.ZeroFillPassesSegmentEnd | src/jrd/os/posix/unix.cpp:566-598 | ten pages short of a segment's end, a request for 100 pages counts a whole 32-page batch |
| Header.PlausibleDatabase | src/jrd/os/posix/unix.cpp:1296-1303 | a device passes exactly when its header has the header page type, a supported on-disk version and a page size within bounds |
| Header.PlausiblePageSize | src/jrd/os/posix/unix.cpp:1302-1303 | a device that passes has a valid page size, so its zero-fill batches are 8 to 128 pages |
| Header.PlausibleIgnoresSequenceAndFlags | src/jrd/os/posix/unix.cpp:1296 | the file's sequence number and header flags do not affect the test |
| Header.PlausibleBounds | src/jrd/os/posix/unix.cpp:1302-1303 | the bounds are inclusive: 1024 and 16384 pass, 1023 and 16385 fail |
| Header.ShutdownSingleBits | src/jrd/os/posix/unix.cpp:1044 | the single-user shutdown test holds exactly when both shutdown bits are set; multi-user or full shutdown alone do not stop the wait |
| Header.IsShutdownSingle | src/jrd/os/posix/unix.cpp:1044 | the header flags masked with the shutdown mask equal the single-user value |
| Pio.HandshakeSucceedsIff | src/jrd/os/posix/unix.cpp:1022-1055 | the primary file's handshake succeeds exactly when the exclusive lock is granted at once or every poll of the wait passes; it then yields the segment and never reports |
| Pio.PollFault | src/jrd/os/posix/unix.cpp:1034-1046 | one poll of the wait: the fault of the header read, else an `lseek` read error when the rewind fails, else `isc_shutdown` on a single-user shutdown, else none |
| Pio.HandshakeSpec | src/jrd/os/posix/unix.cpp:1022-1055 | the primary file's handshake: the segment when the exclusive lock is granted at once or no poll before the shared grant faults, otherwise the first poll's fault |
| Pio.SetupEffect | src/jrd/os/posix/unix.cpp:978-1058 | `setup_file`'s effect: a later file changes nothing; the primary file builds the lock block, sets the exclusive bit exactly when the exclusive lock is granted at once, leaves no file registered, and keeps the lock only on success |
| Pio.AttemptErrno | src/jrd/os/posix/unix.cpp:929-938 | the errno a single open leaves: the refusal's code, or EINTR |
| Pio.OpenErrno | src/jrd/os/posix/unix.cpp:929-938 | the errno `openFile` leaves: that of the first attempt not interrupted, else EINTR |
| Pio.AfterMaybeClose | src/jrd/os/posix/unix.cpp:955-959 | `maybeCloseFile` leaves -1 in place of a non-negative descriptor and any other as it was |
| Pio.MaybeClosed | src/jrd/os/posix/unix.cpp:955-959 | `maybeCloseFile` closes exactly a non-negative descriptor |
| Pio.OpenDesc | src/jrd/os/posix/unix.cpp:623-630 | `PIO_open`'s descriptor: the read-write open's, else the read-only open's, else -1 |
| Pio.CreateDesc | src/jrd/os/posix/unix.cpp:235-246 | `PIO_create`'s descriptor: one open with the creation flags, -1 when it fails |
| Pio.ShutdownStopsWait | src/jrd/os/posix/unix.cpp:1034-1053 | a single-user shutdown seen after clean polls raises `isc_shutdown` for the file |
| Pio.CloseTestsDiffer | src/jrd/os/posix/unix.cpp:955-959 | `maybeCloseFile` and `PIO_close` disagree exactly on descriptor 0 and on negatives other than -1; a second `maybeCloseFile` closes nothing |
| Pio.Database.MaybeCloseFile | src/jrd/os/posix/unix.cpp:942-960 | a non-negative descriptor is closed and replaced by -1; any other is left alone |
| Pio.Database.CloseSegment | src/jrd/os/posix/unix.cpp:202-205 | one step of `PIO_close`: segment i is closed in place and its descriptor logged if it was open |
| Pio.Database.Close | src/jrd/os/posix/unix.cpp:186-207 | the chain becomes `CloseAll` of the old chain, the open descriptors are closed in chain order, and flags and lock are unchanged |
| Pio.Database.SetupFile | src/jrd/os/posix/unix.cpp:963-1059 | a new unbounded segment; with a primary file present nothing else changes; otherwise the lock block is built, the exclusive bit records whether the exclusive lock was granted, the handshake outcome is returned, no file stays registered, and on failure the lock is dropped |
| Pio.Database.Open | src/jrd/os/posix/unix.cpp:606-676 | read-write, else read-only (marking the database when it is the primary file), else an `open` error; then the file is set up under the caller's first name and its descriptor closed if that raises |
| Pio.Database.Create | src/jrd/os/posix/unix.cpp:210-265 | one open with the creation flags, an `open O_CREAT` error on failure; then set-up under the expanded name, closing the descriptor if that raises |
| Pio.Database.AddFile | src/jrd/os/posix/unix.cpp:151-183 | on success the chain becomes `Append` of the old chain with the created segment at `start`, and the result is the number of files before it modulo 2^16; on failure it raises and the chain is unchanged |
| Pio.Database.ForceWrite | src/jrd/os/posix/unix.cpp:332-383 | no-op when the modes match; otherwise the descriptor is closed and reopened with the requested modes and read-only access; a failed reopen raises, leaves -1 and keeps the flags; a successful one records exactly the new modes; other segments never change |

## Findings

| source | as written | input that shows it | evidently intended | confidence | as-written member | corrected member |
|---|---|---|---|---|---|---|
| src/jrd/os/posix/unix.cpp:741 | `bytes == -1U`, where `bytes` is `FB_UINT64` (line 692). A -1 from `pread` is stored as 2^64-1 and never equals 0xFFFFFFFF, so a hard read error is never detected and is retried like a short read | a hard error (errno 5) at attempt 0, then a full read: `PIO_read` returns true | a hard error fails the read at once, reported with its errno, as `PIO_write` does at line 831 | not executed | Retry.HardErrorRetriedAsWritten | Retry.HardErrorFails |

## Left out

- The AIO emulation of `pread`/`pwrite` (lines 1127-1189). It is platform plumbing, and the model uses the positioned calls directly.
- The `lseek`-and-mutex build and the `THD_IO_MUTEX_*` locking. Their purpose is concurrency. In that build the descriptor's file position is shared state, which the model does not have.
- Encryption (`ISC_DATABASE_ENCRYPTION`). The callbacks are foreign code.
- Retry.PioRead, Retry.HardErrorFails: the model fails a read at once on a hard error (`pread` returning -1 with an errno other than EINTR), as `PIO_write` does at line 831. The code as written cannot detect that case. Line 692 declares `bytes` as the 64-bit unsigned `FB_UINT64`, so a -1 from `pread` is stored as 2^64-1. That value never equals the 32-bit `-1U` (0xFFFFFFFF) that lines 723 and 741 compare it with. As written, a hard error is retried like a short read. A later full read makes the routine return true. If all twenty attempts fail, line 762 raises `read_retry`, even when a status vector was given. See ## Findings.
- The lock manager (`LCK_lock`, owner handles, the downgrade AST) and the byte layout of the lock key. `LCK_lock` is an oracle. Of the key only its length is kept, as `st_dev` plus `st_ino`, bounded by the 32-byte buffer.
- Clearing the thread's status vector in the wait loop. That vector belongs to the thread, not to the database.
- Pio.Database.SetupFile: the shared-lock wait is bounded by the oracle's `grantAfter` poll count. A wait that never ends is not modelled.
- `ISC_expand_filename`, `PIO_expand`, `PIO_extend` (a stub) and `PIO_flush` (a loop of `fsync`). They are wrappers or I/O only. `PIO_create`'s expanded name is a parameter.
- The `SUPERSERVER_V2` variants, where writes are always synchronous and `PIO_force_write` is a no-op.
- The raw-device branches: `PIO_create` dropping `O_CREAT`, `PIO_open` validating the device, the read loop of `raw_devices_validate_database`, `PIO_unlink` and `PIO_on_raw_device`. Only the header test they rely on is modelled.
- Logging: `gds__log_status` of each reported error (line 1091), and the DEV_BUILD `fprintf`s. They are output only.
- The `fcntl` path of `PIO_force_write`, which is compiled out while `FCNTL_BROKEN` is defined.
- ZeroFill.InitRun: the page index is an unbounded integer. The model's index ends the loop at the point where the ULONG index wraps and keeps going. Every batch the model starts lies below `fil_max_page` (`ZeroFill.BatchesInRange`). In the code, `i += write_pages` at line 599 wraps. Example: one unbounded segment, start page 0xFFFFFFF0, 100 pages of 4096 bytes. Then `initBy` is 15, and after the first batch `i` wraps to 16. The loop then overwrites live pages 16 to 83 with zeros. After that `write_pages` is 0 and the loop never ends. When the start page lies in the last segment of a chain whose last segment starts above the wrapped page, the re-seek walks off the chain and raises CORRUPT(158) at line 865. The model returns 32 for both.
- ZeroFill.WriteBatch: a batch writes `write_pages` pages in one call, and only whether that whole transfer was full, short, interrupted or failed is modelled.
- Retry.PioRead, Retry.PioWrite: the page contents and the buffers are not modelled, only the transfer results.
- The errno that `PIO_read`, `PIO_write`, `PIO_header` and `PIO_get_number_of_pages` report when the descriptor is -1. The same goes for the two `lseek` errors of `seek_file` (lines 873 and 884), for a -1 descriptor and for an offset `off_t` cannot hold. In none of these did a call fail, so it is whatever errno held before, written `Unspecified`. A failed `fstat` reports its own errno (`FileChain.NumberOfPages`).
- `Ods::isSupported` is not part of this model. It is a parameter of the header test.
- The constants of the on-disk format are stated here with their values in Firebird's `ods.h`, which is not part of this model: page sizes 1024 to 16384, page type 1 for the header page, and shutdown mask and single-user value `0x1080`.
