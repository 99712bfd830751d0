# A verified model of a simple File and BufReader

This project models two small Rust crates:

- `simple_file` wraps one POSIX file descriptor in a `File` handle. It has these parts:
  - `open` checks the path, turns an `OpenMode` into open(2) flags and calls open(2) with permissions 0o644.
  - `read` and `write` refuse a closed handle. Otherwise they make one system call and map a negative return to the OS error.
  - `Drop` closes the descriptor once and then marks the handle with the sentinel -1.
- `simple_bufreader_bufwriter` puts a 4096-byte buffer in front of such a `File`:
  - `BufReader::new` starts with an empty buffer.
  - `read` copies buffered bytes and refills the buffer when it is used up.
  - `read_line` gathers one newline-terminated line across as many buffer loads as it spans. Each load's segment is checked to be UTF-8.

The modules are:

- `IoTypes`: bytes, I/O error kinds, `Result` and `Option`.
- `Utf8`: well-formedness of UTF-8 after section 4 of RFC 3629, the check `std::str::from_utf8` makes.
- `SimpleFile`: `OpenMode`, the open flags and the `File` class.
- `BufReaders`: the line specification and the `BufReader` class.

The operating system is a set of stand-in methods on `File` (`LibcOpen`, `LibcRead`, `LibcWrite`, `LibcClose`). Each one picks its outcome nondeterministically, within what POSIX allows. The kernel's side of an open file is kept as fields of the handle: its contents, its offset and its access mode. A ghost log `calls` records every system call, so that statements like "no system call is made" and "close is called once" can be expressed.

The reader's state is tied to the stream by `Coherent`. It says the buffer holds the file's last `capacity` bytes before the file offset. `Delivered()` is the stream position of the next byte the reader hands out. `Read` and `ReadLine` are specified by what they deliver: the bytes they return are exactly `file.data[old(Delivered())..Delivered()]`, in order. For `ReadLine`, the lemma `LineOfStream` then shows that a successful result is `NextLine` of the rest of the stream. The lemma `PartialLine` shows that an interrupted result is a prefix of it.

`ReadLine` also returns a ghost record of how it took the line. `loads` lists the sizes of the buffer loads it scanned: first the bytes already buffered, if any, then the result of each read(2), matched one for one against the system-call log. `segments` holds the accepted piece of each load, and `Joined(segments)` is the line. `rejected` is the piece that failed the UTF-8 check, if any. The predicate `Ended` states how the call stopped.

## Model

| member | source | states |
|---|---|---|
| SimpleFile.Flags | simple_file/src/lib.rs:61-65 | Read opens read-only without create or truncate. Write opens write-only, creating and truncating. ReadWrite opens read-write, creating without truncating. Each is stated as an if-and-only-if over the access mode, O_CREAT and O_TRUNC. |
| SimpleFile.FlagsRoundTrip | simple_file/src/lib.rs:61-65 | The three modes get distinct flag sets, and the mode can be recovered from its flags. |
| SimpleFile.OpenRequest | simple_file/src/lib.rs:48-65 | The path is refused with InvalidInput exactly when it is empty or cannot become a C string (it holds a NUL). Otherwise open(2) receives that path, exactly `Flags(mode)` (from which the mode is recovered) and 0o644. |
| SimpleFile.FromSyscall | simple_file/src/lib.rs:96-101 | A negative system-call result is the OS error. Any other result is the byte count, unchanged. |
| SimpleFile.Overwrite | simple_file/src/lib.rs:117-118 | A write at an offset leaves the bytes before the offset alone and puts the written bytes at the offset. Bytes past them are kept, and the file grows only when the write runs past its end. |
| SimpleFile.File.Wrap | simple_file/src/lib.rs:73 | A new handle owns the given descriptor, at offset 0. |
| SimpleFile.File.LibcOpen | simple_file/src/lib.rs:67 | open(2) returns -1 or a descriptor. It fails on a missing file without O_CREAT. A created or truncated file is empty. |
| SimpleFile.File.LibcRead | simple_file/src/lib.rs:92-95 | read(2) returns -1 and changes nothing, or it copies the next k <= len bytes from the offset and advances the offset by k. It returns 0 only for an empty buffer or at end of file. |
| SimpleFile.File.LibcWrite | simple_file/src/lib.rs:117-118 | write(2) returns -1 and changes nothing, or it writes a prefix of the buffer at the offset and advances the offset by the prefix's length. |
| SimpleFile.File.LibcClose | simple_file/src/lib.rs:135-137 | close(2) is logged and changes nothing else. |
| SimpleFile.File.Open | simple_file/src/lib.rs:48-74 | A bad path fails with InvalidInput before any system call. Otherwise there is exactly one open(2) with the request's arguments. Open fails with the OS error exactly when open(2) returns -1. On success it gives a fresh handle with the returned descriptor, whose readability and writability follow the mode. A Read open of a missing file fails. |
| SimpleFile.File.Read | simple_file/src/lib.rs:83-102 | A closed handle gives InvalidInput with no system call and no change. Otherwise there is one read(2) of the buffer's length, with its result mapped by FromSyscall. On Ok(n), buf[..n] are the next n bytes of the file, the rest of buf is untouched and the offset moves by n. |
| SimpleFile.File.Write | simple_file/src/lib.rs:109-125 | A closed handle gives InvalidInput with no system call and no change. Otherwise there is one write(2) of the whole slice. On Ok(n) the file is the old file overwritten at the offset by the first n bytes, and the offset moves by n. |
| SimpleFile.File.Drop | simple_file/src/lib.rs:132-142 | An open descriptor is closed exactly once and the handle becomes INVALID_FD. A closed handle makes no system call. |
| SimpleFile.ReleaseTwice | simple_file/src/lib.rs:132-142 | Dropping twice closes the descriptor at most once, because the sentinel makes the second drop a no-op. |
| Utf8.NoForbiddenOctets | simple_bufreader_bufwriter/src/lib.rs:77 | Text that passes the check `ValidFrom` (the model of `std::str::from_utf8`) never holds the octets C0, C1 or F5 to FF. `ValidUtf8(s)` is `ValidFrom(s, 0)`. |
| Utf8.CharWidth | simple_bufreader_bufwriter/src/lib.rs:77 | The width of the well-formed character at an index is between 1 and 4 and stays within the text. It is 1 exactly for an ASCII byte. |
| Utf8.CharWidthJoin | simple_bufreader_bufwriter/src/lib.rs:77 | A character's width depends only on its own bytes. Text around it does not change it. |
| Utf8.ValidShift | simple_bufreader_bufwriter/src/lib.rs:77 | Validity of the text after a prefix does not depend on the prefix. |
| Utf8.ValidJoin | simple_bufreader_bufwriter/src/lib.rs:77 | A valid suffix of `a` followed by valid `b` is valid. |
| Utf8.ValidConcat | simple_bufreader_bufwriter/src/lib.rs:77 | Pushing a valid segment onto a valid String keeps it valid. |
| Utf8.AsciiValid | simple_bufreader_bufwriter/src/lib.rs:77 | Every ASCII text passes the UTF-8 check. |
| Utf8.SplitCharacter | simple_bufreader_bufwriter/src/lib.rs:71-77 | Checking per segment is stricter than checking the whole line: a character cut by a buffer boundary fails although the line is valid. |
| BufReaders.LineEnd | simple_bufreader_bufwriter/src/lib.rs:69-75 | The end of the line from index i lies in [i, \|s\|]. |
| BufReaders.LineEndCharacterised | simple_bufreader_bufwriter/src/lib.rs:69-75 | In both directions, the scan's result is exactly the line end: past i unless i is the end of the text, with no newline before its last byte, and that byte a newline unless the text is used up. |
| BufReaders.LineEndPast | simple_bufreader_bufwriter/src/lib.rs:69-75 | The line end never falls inside a run of newline-free bytes. |
| BufReaders.LineOfStream | simple_bufreader_bufwriter/src/lib.rs:55-90 | Bytes read from offset a that hold no newline before their last byte, and end with a newline or at the end of the stream, are exactly NextLine of the stream from a. |
| BufReaders.PartialLine | simple_bufreader_bufwriter/src/lib.rs:55-90 | Newline-free bytes read from offset a are a prefix of NextLine of the stream from a. |
| BufReaders.BufReader.constructor | simple_bufreader_bufwriter/src/lib.rs:19-28 | The reader gets a fresh zero-filled 4096-byte buffer with pos = capacity = 0. Nothing is buffered, so the next byte delivered is at the file's offset. |
| BufReaders.BufReader.RefillAsWritten | simple_bufreader_bufwriter/src/lib.rs:61-63 | The refill as the source writes it. On Ok it loads the next bytes with pos = 0. On Err, pos is 0 but the old capacity and buffer stay, so the delivery point moves back by the old capacity. |
| BufReaders.BufReader.Refill | simple_bufreader_bufwriter/src/lib.rs:37-43 | The corrected refill. pos = 0, the delivery point does not move, and the buffer holds the next `capacity` bytes. Ok(0) only at end of file. Err empties the buffer. A closed file gives InvalidInput with no system call. Otherwise exactly one read(2) of BUFFER_SIZE bytes is logged, and the result is that call's result mapped by FromSyscall. The refill never gives InvalidData. |
| BufReaders.BufReader.Read | simple_bufreader_bufwriter/src/lib.rs:30-53 | An empty dest gives Ok(0) and changes nothing: not the reader, its buffer or the file. It delivers the next stream bytes into dest[0..n] in order and leaves the rest of dest alone. Ok(n) has n = the bytes delivered, and n < \|dest\| exactly when the last read(2) returned 0, at end of file. A full Ok(\|dest\|) leaves bytes consumed from the buffer (pos > 0), so no refill follows once dest is full. With enough bytes buffered it makes no system call. The ghost `loads` are its read(2) results, one logged read(2) of BUFFER_SIZE bytes per refill, and every refill but the last loaded bytes. An Err comes only while dest still has room, is never InvalidData and leaves the buffer empty. InvalidInput comes only from a closed file, and LastOsError only from a last read(2) that returned a negative value. |
| BufReaders.BufReader.ReadPass | simple_bufreader_bufwriter/src/lib.rs:37-50 | One loop pass. It copies the next stream bytes into dest at `total` and leaves the rest of dest alone. With bytes buffered it makes no refill and no system call. Otherwise its refill adds at most one logged load. It stops with Ok only after a load of 0 at end of file, and with Err only on the refill's error (InvalidInput on a closed file, LastOsError on a negative load), with the buffer empty. When it goes on, it copied at least one byte and pos > 0. |
| BufReaders.BufReader.CopyOut | simple_bufreader_bufwriter/src/lib.rs:45-50 | It copies min(buffered, room) bytes, which are the next stream bytes, into dest at `at`, changes nothing else in dest and advances pos by that count. |
| BufReaders.BufReader.FindLineEnd | simple_bufreader_bufwriter/src/lib.rs:69-75 | The end is one past the first newline in [pos, capacity), or capacity when there is none. It equals LineEnd of the buffered bytes. |
| BufReaders.BufReader.Fill | simple_bufreader_bufwriter/src/lib.rs:61-67 | With bytes still buffered it makes no system call and reports them as the load. Otherwise it refills: pos = 0, and the load is the logged read(2) result. A refill on a closed file gives InvalidInput with no load and no call. Ok(0) only at end of file, and Err leaves the buffer empty. The delivery point does not move. On Ok the load is exactly the bytes now buffered; LastOsError comes with a negative load, and InvalidData never. |
| BufReaders.BufReader.TakeSegment | simple_bufreader_bufwriter/src/lib.rs:76-84 | The segment is the next stream bytes up to the line end. It is accepted exactly when it is valid UTF-8, and then pos moves to its end. When it is rejected, pos stays put. |
| BufReaders.BufReader.ScanSegment | simple_bufreader_bufwriter/src/lib.rs:69-88 | The scanned segment is the next stream bytes of the load up to and including its first newline, or the whole load. It is rejected with InvalidData exactly when it is not valid UTF-8; then the line, the segments and pos are unchanged, and the segment is the rejected piece. Otherwise it is appended to the line and the segments. The pass stops with Ok(\|line\|) exactly when the segment ends with a newline. When it goes on, pos = capacity. |
| BufReaders.BufReader.ScanLoad | simple_bufreader_bufwriter/src/lib.rs:64-88 | The pass after the refill guard: a refill error stops it with that error and an unchanged line, and an empty load stops it with Ok(\|line\|) at end of file. Otherwise ScanSegment takes the load's segment. `Ended` holds on stopping. |
| BufReaders.BufReader.ReadLinePass | simple_bufreader_bufwriter/src/lib.rs:60-89 | One loop pass: Fill, then ScanLoad. When it continues, pos = capacity and the line has grown by a newline-free segment that is the whole load. When it stops with Ok, the line ends with a newline or the stream is at its end. When it stops with Err, the line is unchanged, and the error is InvalidData or comes with an empty buffer. The load joins the record, and `Ended` holds on stopping. |
| BufReaders.BufReader.ReadLine | simple_bufreader_bufwriter/src/lib.rs:55-90 | The line is exactly the stream bytes from the old delivery point to the new one. It is valid UTF-8 and holds no newline before its last byte. Ok(n) has n = \|line\|, and the line ends with a newline or at the end of the stream. An Err line holds no newline. The loads are the buffered bytes, then one logged read(2) per load. The line is one valid segment per load, and every segment but the last is its whole load. InvalidInput comes only from a closed file, and LastOsError only from a last read(2) that returned a negative value. Ok comes with a final newline, or after a read(2) that returned 0 with no newline in the line. InvalidData comes exactly when a segment is rejected: the rejected piece is ill-formed, comes from the last load, ends at its newline or at the load's end, and is left unread. |

## Left out

- BufWriter: the source declares only its fields (simple_bufreader_bufwriter/src/lib.rs:93-99) and no operation, so it is not modelled.
- The `Read`/`Write` trait implementations for `File` (simple_file/src/lib.rs:144-158) only forward to `read`/`write`. Their `flush` returns `Ok(())`. Traits are not modelled.
- The operating system, the file system and other processes sharing the file are stand-ins. Their failures are nondeterministic choices, and the file's prior contents are a parameter of `Open`.
- errno values and error messages: an OS failure is the single kind `LastOsError`, and message strings are dropped.
- Paths are Dafny strings. A path that is not valid Unicode, the `to_str` failure at simple_file/src/lib.rs:57-58, cannot arise. Only the NUL check of `CString::new` is modelled.
- Integer widths: descriptors (`i32`), `ssize_t` results and `usize` counts are unbounded integers. No overflow can occur at these sizes.
- Ownership and drop timing: `Drop` is an explicit method, and dropping a `BufReader` does not drop its `File` in the model.
- `BufReader.Read` requires `dest != buffer`, which Rust's borrow rules guarantee.
- BufReaders.BufReader.ReadLine: the closure given to `map_err` (simple_bufreader_bufwriter/src/lib.rs:77-81) builds an error and then discards it, because its body ends with a semicolon. It yields `()`, which `?` cannot turn into an `io::Error`. The model follows the evident intent: an invalid segment fails with InvalidData.
- BufReaders.BufReader.ReadLine: the line is a byte sequence proved to be valid UTF-8, rather than a `String`.
- BufReaders.BufReader.TakeSegment: it advances pos only when the segment is accepted, while the source pushes and then advances. The observable effect is the same.
- BufReaders.BufReader.Read and BufReaders.BufReader.ReadLine use the corrected Refill, not the refill as written (see Findings).

## Findings

| source | as written | input that shows it | evidently intended | confidence | as-written member | corrected member |
|---|---|---|---|---|---|---|
| simple_bufreader_bufwriter/src/lib.rs:37-39 (and 61-63) | `pos` is reset to 0 before `file.read(...)?`. When the read fails, `?` returns with `capacity` still holding the previous load's size. | A reader whose last load of n > 0 bytes is fully delivered (pos == capacity == n) and whose next read(2) fails. The next call copies buffer[0..n] again and hands out those n bytes a second time. | A failed refill leaves nothing buffered (capacity 0), so no byte is delivered twice. | not executed | BufReaders.BufReader.RefillAsWritten | BufReaders.BufReader.Refill |
