# ttylog transcript writer in Dafny

ttylog runs a program on a pseudo-terminal and keeps a human-readable log
(`.ttylog`) of everything the program printed. A relay loop reads the
terminal's output in chunks of at most `READ_SIZE` (512) bytes. It hands
each chunk to `write_escaped`, which appends to the log with one write(2)
per input byte, two for an ESC that is not the first byte of the chunk:

- an ESC becomes the 10-byte dim caret `ESC[2m^ESC[22m`; when the ESC is
  not the first byte of the chunk, a real line feed is written before it;
- a carriage return becomes the 11-byte dim text `ESC[2m\rESC[22m`;
- a line feed becomes the 12-byte dim text `ESC[2m\nESC[22m` followed by a
  real line feed;
- every other byte is copied.

`write_escaped` returns the sum of what the counted calls took. It returns
-1 as soon as one of them fails, and it stops at a call that takes nothing.

The model has three modules:

- `Escaping` (escape.dfy) is the transcript format. `Escape(buf)` is what a
  chunk becomes when every write takes all it is asked to. `Counted(buf)` is
  the total returned in that case. `Unescape` reads a transcript back into
  its chunk. The lemmas prove that the format is per byte, that it loses
  nothing (round trip and injectivity), and the byte counts.
- `TtyLog` (ttylog.dfy) is `write_escaped` itself:
  - The log descriptor is a `LogFile` object whose `sink` field holds the
    log's bytes.
  - `Write` is write(2) on it. The kernel may take any prefix of the data
    or fail with -1, so the method chooses its answer nondeterministically.
    Ghost fields record the data of every call and the answer it got.
  - `WriteEscaped` keeps the source's loop, branches and early exits. Its
    contract gives the data of every call it makes (`Requests`), and the
    log's new contents and the result (`Output`, `Returned`) for every
    sequence of answers the kernel may give.
  - The lemmas relate those to `Escape` and `Counted`.
- `Relay` (relay.dfy) is the relay loop of the logging child. It hands
  chunks to `WriteEscaped` and gives up at the first negative result. The
  lemmas compare the per-chunk transcripts with the transcript of the whole
  stream.

Notes on the code:

- The code does not classify escape sequences by their final byte, and it
  does not colour them by category. An ESC consumes only itself. The bytes
  after it (the `[2J` of a clear-screen sequence) are copied as ordinary
  bytes (`EscapeClearScreen`).
- The test `buffer[i] != '\n'` before the line feed is always true, because
  `buffer[i]` is the ESC at that point. `WriteByte` keeps the test as
  written, and the line feed depends only on the index.
- The result of the line-feed call is never looked at
  (`DroppedLineFeed`, `DroppedLineFeedOutput`).
- A short write is counted, and the loop goes on with the next byte
  (`ShortWrite`).

## Model

| member | source | states |
|---|---|---|
| Escaping.Marker | ttylog.c:155-165 | each control byte's marker has the written length (ESC 10, CR 11, LF 12); any other byte is copied as itself; no marker holds a raw CR; only the LF marker holds a raw LF, as its last byte |
| Escaping.EscapeAt | ttylog.c:153-165 | each byte is transcribed by its own rule wherever it sits, and the rule depends only on whether the byte is at index 0 |
| Escaping.EscapeSnoc | ttylog.c:153-165 | transcribing one more byte appends exactly that byte's unit |
| Escaping.EscapeSplit | ttylog.c:155-157 | splitting a chunk changes its transcript only by the line feed before an ESC that starts the second part |
| Escaping.EscapePlain | ttylog.c:163-164 | a chunk without ESC, CR or LF is copied unchanged |
| Escaping.EscapeTally | ttylog.c:151-173 | the transcript's length is the counted total plus one line feed per ESC after index 0; it holds no raw CR; its line feeds are the chunk's own plus the inserted ones |
| Escaping.CountedAppend | ttylog.c:173 | the counted total of a split chunk is the sum of its parts' totals |
| Escaping.MarkerCounted | ttylog.c:158-164 | a lone byte counts for the length of its marker |
| Escaping.CountedBounds | ttylog.c:158-164 | each byte counts for at least 1 and at most 12 |
| Escaping.UnescapeUnit | ttylog.c:155-164 | reading back one byte's unit, whatever follows it, gives that byte |
| Escaping.EscapeRoundTrip | ttylog.c:153-165 | reading back a chunk's transcript gives the chunk |
| Escaping.EscapeInjective | ttylog.c:153-165 | two chunks with the same transcript are equal |
| Escaping.EscapeClearScreen | ttylog.c:155-158 | `A ESC [2J B` becomes `A`, a line feed, the caret marker, then `[2J B` copied |
| TtyLog.LogFile.Write | ttylog.c:157-164 | write(2) with O_APPEND: the answer is -1 or a length up to the data's; the log gains that prefix, or nothing on -1 or 0; the call's data and answer are recorded |
| TtyLog.WriteByte | ttylog.c:154-165 | one loop turn makes the calls for byte i: a lone line feed first for an ESC after index 0, then the byte's marker (`Asked`). The log gains the prefixes they took, and the result is the last call's answer |
| TtyLog.WriteEscaped | ttylog.c:149-177 | for every sequence of kernel answers the scan can meet: the answers are admissible, the calls ask for the line feeds and markers of the bytes handled, in order (`Requests`), the log gains `Output(buf, trace)`, and the result is `Returned(trace)` |
| TtyLog.StepFull | ttylog.c:155-165 | the calls for one byte all take their whole data exactly when their answers are the complete ones |
| TtyLog.FullPrefix | ttylog.c:153-173 | over the bytes handled, every call taking its whole data is the same as the complete answers |
| TtyLog.FullWritesComplete | ttylog.c:153-176 | every call of write_escaped takes all the data it asks for exactly when the answers are the complete ones, and then the log gains `Escape(buf)` and the result is `Counted(buf)` |
| TtyLog.ScanStops | ttylog.c:153-171 | the scan goes past a byte only when its counted call took something; it ends early only at an answer of 0 or -1; the result is -1 exactly when the last call failed; an empty chunk makes no call and returns 0 |
| TtyLog.EmittedLength | ttylog.c:155-173 | the calls for one byte append at least what they add to the total, and at most one byte more (the uncounted line feed) |
| TtyLog.OutputLength | ttylog.c:157-173 | the bytes appended so far are at least the running total and at most the total plus the inserted line feeds |
| TtyLog.SumAtMostCounted | ttylog.c:173 | the running total never exceeds what complete writes of the same bytes would return |
| TtyLog.SumGap | ttylog.c:173 | each counted call that took less than its whole marker leaves the total that much short of the complete total |
| TtyLog.SumReachesCounted | ttylog.c:173 | a total equal to the complete total means every counted call took its whole marker |
| TtyLog.Accounting | ttylog.c:151-176 | the result is -1 or the running total, and the running total is at most the complete total; the log gains between the total and the total plus the inserted line feeds |
| TtyLog.ReturnedFitsInt | ttylog.c:151-173 | with a chunk of at most READ_SIZE bytes the returned `int` stays within -1..6144 and the running `total` within 0..6144, far from overflow |
| TtyLog.FullCountMeansAllMarkers | ttylog.c:167-176 | a result equal to the complete total means the scan reached the end and every counted call took its whole marker |
| TtyLog.CompleteStep | ttylog.c:155-165 | complete answers fit the calls for a byte, keep the whole marker as its result, and append the byte's unit |
| TtyLog.CompleteGoing | ttylog.c:153-173 | with complete answers the scan goes on past every byte |
| TtyLog.CompleteOutput | ttylog.c:153-165 | with complete answers the log gains exactly `Escape(buf)` |
| TtyLog.CompleteSum | ttylog.c:173-176 | with complete answers the total is `Counted(buf)` |
| TtyLog.CompleteWrites | ttylog.c:149-177 | complete answers are admissible, and they give the transcript and the complete total |
| TtyLog.DroppedLineFeed | ttylog.c:156-158 | a failed line-feed call before an ESC still lets `A ESC` return the complete total 11 |
| TtyLog.DroppedLineFeedOutput | ttylog.c:156-158 | in that run the log gains `A` and the caret marker without the line feed, which differs from the transcript |
| TtyLog.ShortWrite | ttylog.c:159-173 | a short write of a CR marker is counted and the scan goes on, so the log gains 3 marker bytes then `A`, and the result is 4 |
| Relay.Relay | ttylog.c:57-61 | the relay loop hands the chunks over in order, and stops after the first negative result (then `failed` holds) or when the chunks run out; the log gains the bytes appended for each chunk handed over, and the calls made and the kernel's answers are those of the `write_escaped` calls for the chunks in order |
| Relay.CompleteRelay | ttylog.c:57-61 | with complete answers every chunk is handed over, no result is negative, and the log gains the per-chunk transcripts laid end to end |
| Relay.TranscriptLength | ttylog.c:57-58 | the per-chunk transcripts fall short of the stream's transcript by one line feed per later chunk that starts with ESC |
| Relay.TranscriptOfStream | ttylog.c:57-58 | without such a chunk the per-chunk transcripts are the stream's transcript |
| Relay.ChunkingInvisible | ttylog.c:57-58 | the per-chunk transcripts equal the stream's transcript exactly when no chunk but the first starts with ESC |
| Relay.TranscriptRoundTrip | ttylog.c:57-58 | reading back the per-chunk transcripts (what the log gains when every write is complete) gives the stream, however it was cut into chunks |
| Relay.LogReadsBack | ttylog.c:57-58 | when every write(2) takes all its data, the log the relay loop writes reads back as the stream |
| Relay.FullRelay | ttylog.c:57-61 | every write(2) of the relay loop took all its data exactly when the answers were the complete ones for the chunks handed over; then no result was negative and the log gained those chunks' transcripts |
| Relay.RelayFull | ttylog.c:57-61 | from the relay loop's own contract: when every write(2) took all its data, every chunk was handed over and the log gained the transcripts of all of them |

## Left out

- `main` apart from the relay loop (ttylog.c:11-56, 62-90) is left out:
  pseudo-terminal allocation, `fork`, opening `.ttylog`, and the second
  relay loop that forwards keystrokes. It is process plumbing, and the two
  relay loops run as concurrent processes.
- Relay.Relay: does not model the echo of each chunk to standard output
  (ttylog.c:63-66). Its failure ends the process in the source, and the
  model always goes on to the next chunk.
- Relay.Relay: the chunks are a parameter. The read(2) calls that deliver
  them are left out, and so is a failing read (ttylog.c:69-72), which makes
  the child return `errno`. The error messages and `exit(1)` are left out
  too.
- `run_child`, `getattr`, `setattr` and `cbreak` (ttylog.c:92-147) are left
  out: they are terminal and process set-up through library calls.
- TtyLog.LogFile.Write: which answer the kernel gives is left open
  (a nondeterministic choice). Signals, `errno` and concurrent writers to
  the same log are not modelled.
- `try_write`, `find_char` and `IGNORE_STYLES` (ttylog.h:13-17) are
  declared but never defined or read, so there is nothing to model.
- The C types are not modelled bit for bit. A chunk is a sequence of
  unsigned byte values; the three compared constants are below 0x80, so
  signed `char` behaves the same. `int i` against `size_t size` and the
  `int total` cannot overflow for chunks of at most READ_SIZE bytes
  (`ReturnedFitsInt`).
