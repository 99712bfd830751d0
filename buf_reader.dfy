/** A buffered reader over a File: a fixed 4096-byte buffer, the index
    `pos` of the next unread byte in it and the count `capacity` of valid
    bytes, refilled from the file only once every valid byte is used. */
module BufReaders {
  import opened IoTypes
  import opened Utf8
  import opened SimpleFile

  /** The size of the reader's buffer (4 KiB). */
  const BUFFER_SIZE: nat := 4096

  /** Where the line that starts at index i of `s` ends: just past the
      first newline at or after i, or at the end of `s` if there is none
      (a scan, one byte at a time). */
  function LineEnd(s: seq<byte>, i: nat): (e: nat)
    requires i <= |s|
    ensures i <= e <= |s|
    decreases |s| - i
  {
    if i == |s| then |s|
    else if s[i] == NEWLINE then i + 1
    else LineEnd(s, i + 1)
  }

  /** The line at the head of `s`: every byte up to and including the first
      newline, or all of `s` when it holds none. */
  function NextLine(s: seq<byte>): seq<byte> {
    s[..LineEnd(s, 0)]
  }

  /** The declarative reading of a line end: e is past i unless i is the
      end of `s`, no byte in [i, e - 1) is a newline, and byte e - 1 is a
      newline unless e is the end of `s`. */
  predicate IsLineEnd(s: seq<byte>, i: nat, e: nat) {
    i <= e <= |s|
    && (i < |s| ==> i < e)
    && (forall k :: i <= k < e - 1 ==> s[k] != NEWLINE)
    && (e < |s| ==> s[e - 1] == NEWLINE)
  }

  /** The scan and the declarative reading agree: LineEnd(s, i) is the one
      and only line end of `s` from i. */
  lemma {:induction false} LineEndCharacterised(s: seq<byte>, i: nat, e: nat)
    requires i <= |s|
    ensures LineEnd(s, i) == e <==> IsLineEnd(s, i, e)
    decreases |s| - i
  {
    if i < |s| && s[i] != NEWLINE {
      LineEndCharacterised(s, i + 1, e);
      if IsLineEnd(s, i, e) {
        assert IsLineEnd(s, i + 1, e);
      }
    }
  }

  /** The bytes `line` found at offset `a` of the stream `d` are the line
      there when they hold no newline before their last byte and either
      end with a newline or run to the end of the stream. */
  lemma LineOfStream(d: seq<byte>, a: nat, line: seq<byte>)
    requires a + |line| <= |d|
    requires forall i :: 0 <= i < |line| ==> line[i] == d[a + i]
    requires forall i :: 0 <= i < |line| - 1 ==> line[i] != NEWLINE
    requires a + |line| == |d| || (|line| > 0 && line[|line| - 1] == NEWLINE)
    ensures line == NextLine(d[a..])
  {
    var rest := d[a..];
    assert forall k :: 0 <= k < |line| ==> rest[k] == line[k];
    LineEndCharacterised(rest, 0, |line|);
    assert rest[..|line|] == line;
  }

  /** A line is never cut short: newline-free bytes found at offset `a`
      of the stream `d` are the start of the line there. */
  lemma PartialLine(d: seq<byte>, a: nat, line: seq<byte>)
    requires a + |line| <= |d|
    requires forall i :: 0 <= i < |line| ==> line[i] == d[a + i] && line[i] != NEWLINE
    ensures line <= NextLine(d[a..])
  {
    var rest := d[a..];
    assert forall k :: 0 <= k < |line| ==> rest[k] == line[k];
    LineEndPast(rest, 0, |line|);
    assert rest[..|line|] == line;
  }

  /** The scan does not stop before a run of newline-free bytes ends. */
  lemma {:induction false} LineEndPast(s: seq<byte>, i: nat, n: nat)
    requires i <= n <= |s|
    requires forall k :: i <= k < n ==> s[k] != NEWLINE
    ensures n <= LineEnd(s, i)
    decreases n - i
  {
    if i < n {
      LineEndPast(s, i + 1, n);
    }
  }

  /** The parts one after another. */
  ghost function Joined(parts: seq<seq<byte>>): seq<byte>
    decreases |parts|
  {
    if parts == [] then [] else Joined(parts[..|parts| - 1]) + parts[|parts| - 1]
  }

  /** 1 when bytes are left in the buffer (the first pass of read_line
      works on them without reading the file), else 0. */
  ghost function Carried(pos: nat, capacity: nat): nat {
    if pos < capacity then 1 else 0
  }

  /** The system calls from `before` to `after` are, in order, one read(2)
      of a full buffer per load, except for the first `carried` loads,
      which were already in the buffer. */
  ghost predicate CallsMatch(before: seq<Syscall>, after: seq<Syscall>, fd: int, carried: nat, loads: seq<int>) {
    |before| <= |after| && after[..|before|] == before
    && |after| - |before| == |loads| - carried
    && forall i :: carried <= i < |loads| ==> after[|before| + i - carried] == ReadCall(fd, BUFFER_SIZE, loads[i])
  }

  /** One more read(2) is one more load. */
  lemma CallsStep(before: seq<Syscall>, after: seq<Syscall>, fd: int, carried: nat, loads: seq<int>, n: int)
    requires CallsMatch(before, after, fd, carried, loads)
    ensures CallsMatch(before, after + [ReadCall(fd, BUFFER_SIZE, n)], fd, carried, loads + [n])
  {
    assert (after + [ReadCall(fd, BUFFER_SIZE, n)])[..|before|] == before;
  }

  /** Each segment is non-empty, well-formed UTF-8 and fits in its load;
      a segment followed by another load is that whole load. */
  ghost predicate SegmentsFit(segments: seq<seq<byte>>, loads: seq<int>) {
    |segments| <= |loads|
    && (forall k :: 0 <= k < |segments| ==> 0 < |segments[k]| <= loads[k] && ValidUtf8(segments[k]))
    && (forall k :: 0 <= k < |segments| && k + 1 < |loads| ==> |segments[k]| == loads[k])
  }

  /** One well-formed segment per load, each the whole load. */
  ghost predicate WholeLoads(segments: seq<seq<byte>>, loads: seq<int>) {
    |segments| == |loads|
    && forall k :: 0 <= k < |segments| ==> 0 < |segments[k]| == loads[k] && ValidUtf8(segments[k])
  }

  /** What a further load does to the segments: none taken, one that fits,
      or one that fills the load. */
  lemma SegmentsGrow(segments: seq<seq<byte>>, loads: seq<int>, x: seq<byte>, n: int)
    requires WholeLoads(segments, loads)
    ensures SegmentsFit(segments, loads) && SegmentsFit(segments, loads + [n])
    ensures 0 < |x| <= n && ValidUtf8(x) ==>
      SegmentsFit(segments + [x], loads + [n]) && Joined(segments + [x]) == Joined(segments) + x
    ensures 0 < |x| == n && ValidUtf8(x) ==> WholeLoads(segments + [x], loads + [n])
  {
    assert (segments + [x])[..|segments|] == segments;
  }

  /** How read_line ended, given its result `r`, the descriptor `fd`, the
      line, its record (see ReadLine), and the stream `data` with the
      reader at `at` and the file offset at `offset`: InvalidInput only on
      a closed file, after no further load; LastOsError after a load that
      read(2) failed; Ok after a segment ending in a newline, or after a
      load of 0 bytes (end of file) with no newline in the line;
      InvalidData exactly when a segment was rejected, which is then the
      next bytes of the stream up to a newline or the end of its load, and
      not well formed. */
  ghost predicate Ended(r: Result<nat>, fd: int, line: seq<byte>, segments: seq<seq<byte>>,
                        loads: seq<int>, rejected: seq<byte>, data: seq<byte>, at: int, offset: int) {
    (r == Err(InvalidInput) ==> fd == INVALID_FD && |loads| == |segments|)
    && (r == Err(LastOsError) ==> |loads| == |segments| + 1 && loads[|segments|] < 0)
    && (r.Ok? ==>
          (|loads| == |segments| && |line| > 0 && line[|line| - 1] == NEWLINE)
          || (|loads| == |segments| + 1 && loads[|segments|] == 0
              && forall i :: 0 <= i < |line| ==> line[i] != NEWLINE))
    && (r == Err(InvalidData) <==> rejected != [])
    && (rejected != [] ==>
          |loads| == |segments| + 1 && |rejected| <= loads[|segments|] && !ValidUtf8(rejected)
          && 0 <= at && at + |rejected| <= offset <= |data|
          && (forall j :: 0 <= j < |rejected| ==> rejected[j] == data[at + j])
          && (forall j :: 0 <= j < |rejected| - 1 ==> rejected[j] != NEWLINE)
          && (rejected[|rejected| - 1] == NEWLINE || |rejected| == loads[|segments|]))
  }

  /** A pass that got no bytes to scan ends read_line as Ended says: the
      file was closed, read(2) failed, or it returned 0. */
  lemma EndedEarly(res: Result<nat>, r: Result<nat>, fd: int, line: seq<byte>, segments: seq<seq<byte>>,
                   loads: seq<int>, loaded: seq<int>, data: seq<byte>, at: int, offset: int)
    requires |segments| == |loads|
    requires |loaded| <= 1 && (loaded == [] ==> res == Err(InvalidInput) && fd == INVALID_FD)
    requires |loaded| == 1 ==> res == FromSyscall(loaded[0])
    requires res.Err? || res == Ok(0)
    requires r == if res.Err? then res else Ok(|line|)
    requires forall i :: 0 <= i < |line| ==> line[i] != NEWLINE
    ensures Ended(r, fd, line, segments, loads + loaded, [], data, at, offset)
  {
    if loaded != [] {
      assert (loads + loaded)[|segments|] == loaded[0];
    }
  }

  class BufReader {
    const file: File
    const buffer: array<byte>
    var pos: nat
    var capacity: nat

    /** The index invariant: pos <= capacity <= |buffer|. */
    ghost predicate Valid()
      reads this, file
    {
      buffer.Length == BUFFER_SIZE && pos <= capacity <= buffer.Length && file.Valid()
    }

    /** The stream position of the next byte the reader will deliver. */
    ghost function Delivered(): int
      reads this, file
    {
      file.offset - (capacity - pos)
    }

    /** The buffer holds the file's last `capacity` bytes before the file
        offset (the last load), so its unread part is the stream from
        Delivered() on: the reader's view of the stream is the file's. */
    ghost predicate Coherent()
      reads this, file, buffer
      requires Valid()
    {
      capacity <= file.offset
      && forall i :: 0 <= i < capacity ==> buffer[i] == file.data[file.offset - capacity + i]
    }

    /** BufReader::new: a zero-filled buffer of 4096 bytes, nothing buffered. */
    constructor (file: File)
      requires file.Valid()
      ensures this.file == file && fresh(buffer)
      ensures buffer.Length == BUFFER_SIZE && forall i :: 0 <= i < BUFFER_SIZE ==> buffer[i] == 0
      ensures pos == 0 && capacity == 0
      ensures Valid() && Coherent() && Delivered() == file.offset
    {
      this.file := file;
      buffer := new byte[BUFFER_SIZE](_ => 0);
      pos, capacity := 0, 0;
    }

    /** The refill step of read and read_line, exactly as the source has it:
        pos is reset before the file is read, so a failing read leaves
        pos == 0 with capacity unchanged. Then the bytes of the previous
        load count as unread again: the reader moves back by `capacity`
        bytes and will deliver them a second time. */
    method RefillAsWritten() returns (r: Result<nat>)
      requires Valid() && Coherent() && pos >= capacity
      modifies this, buffer, file
      ensures Valid() && pos == 0
      ensures file.data == old(file.data)
      ensures Coherent()
      ensures r.Ok? ==> capacity == r.value && Delivered() == old(Delivered())
      ensures r.Err? ==> capacity == old(capacity) && buffer[..] == old(buffer[..])
      ensures r.Err? ==> Delivered() == old(Delivered()) - old(capacity)
    {
      pos := 0;
      r := file.Read(buffer);
      if r.Ok? {
        capacity := r.value;
      }
    }

    /** The refill step with the error path corrected: a failing read also
        empties the buffer, so nothing is delivered twice. */
    method Refill() returns (r: Result<nat>, ghost result: int)
      requires Valid() && Coherent() && pos >= capacity
      modifies this, buffer, file
      ensures Valid() && Coherent() && pos == 0
      ensures file.data == old(file.data) && file.fd == old(file.fd)
      ensures file.readable == old(file.readable) && file.writable == old(file.writable)
      ensures Delivered() == old(Delivered())
      ensures r.Ok? ==> capacity == r.value
      ensures r.Ok? && capacity == 0 ==> Delivered() == |file.data|
      ensures r.Err? ==> capacity == 0
      ensures old(file.fd) == INVALID_FD ==> r == Err(InvalidInput) && file.calls == old(file.calls)
      ensures old(file.fd) != INVALID_FD ==>
        file.calls == old(file.calls) + [ReadCall(file.fd, BUFFER_SIZE, result)] && r == FromSyscall(result)
      ensures r != Err(InvalidData)
    {
      pos := 0;
      r := file.Read(buffer);
      result := -1;
      if old(file.fd) != INVALID_FD {
        result := file.LastCall().result;
        assert file.calls == old(file.calls) + [file.LastCall()];
      }
      if r.Ok? {
        capacity := r.value;
      } else {
        capacity := 0;
      }
    }

    /** BufReader::read: fills `dest` from the buffer, refilling it whenever
        it is used up, until `dest` is full or the file is at its end. The
        bytes written to `dest` are the next bytes of the stream, in order.
        The ghost `loads` are the results of the read(2) calls of its
        refills, in order: every refill but the last loaded some bytes, and
        an error is the last refill's. */
    method Read(dest: array<byte>) returns (r: Result<nat>, ghost loads: seq<int>)
      requires Valid() && Coherent() && dest != buffer
      modifies this, buffer, file, dest
      ensures Valid() && Coherent()
      ensures file.data == old(file.data) && file.fd == old(file.fd)
      ensures file.readable == old(file.readable) && file.writable == old(file.writable)
      ensures old(Delivered()) <= Delivered() <= old(Delivered()) + dest.Length
      ensures forall i :: 0 <= i < Delivered() - old(Delivered()) ==> dest[i] == file.data[old(Delivered()) + i]
      ensures forall i :: Delivered() - old(Delivered()) <= i < dest.Length ==> dest[i] == old(dest[i])
      ensures r.Ok? ==> r.value == Delivered() - old(Delivered())
      ensures r.Ok? && r.value < dest.Length ==> Delivered() == |file.data|
      ensures dest.Length == 0 ==> r == Ok(0) && unchanged(this, buffer, file)
      ensures old(capacity) - old(pos) >= dest.Length ==> r.Ok? && file.calls == old(file.calls)
      // The system calls: one read(2) of a full buffer per refill.
      ensures CallsMatch(old(file.calls), file.calls, file.fd, 0, loads)
      ensures forall k :: 0 <= k < |loads| - 1 ==> loads[k] > 0
      ensures r.Ok? ==> forall k :: 0 <= k < |loads| ==> loads[k] >= 0
      // An error is the refill's, and it leaves the buffer empty.
      ensures r.Err? ==> r.error != InvalidData && capacity == 0
      ensures r == Err(InvalidInput) ==> file.fd == INVALID_FD
      ensures r == Err(LastOsError) ==> loads != [] && loads[|loads| - 1] < 0
      ensures r.Ok? && r.value < dest.Length ==> loads != [] && loads[|loads| - 1] == 0
      ensures r.Ok? && loads != [] && loads[|loads| - 1] == 0 ==> r.value < dest.Length
      ensures r.Err? ==> Delivered() - old(Delivered()) < dest.Length
      ensures r == Ok(dest.Length) && dest.Length > 0 ==> pos > 0
    {
      loads := [];
      if dest.Length == 0 {
        return Ok(0), loads;
      }
      ghost var start := Delivered();
      var total := 0;
      while total < dest.Length
        invariant Valid() && Coherent()
        invariant file.data == old(file.data) && file.fd == old(file.fd)
        invariant file.readable == old(file.readable) && file.writable == old(file.writable)
        invariant 0 <= total <= dest.Length && Delivered() == start + total
        invariant forall i :: 0 <= i < total ==> dest[i] == file.data[start + i]
        invariant forall i :: total <= i < dest.Length ==> dest[i] == old(dest[i])
        invariant old(capacity) - old(pos) >= dest.Length ==>
          file.calls == old(file.calls) && capacity - pos == old(capacity) - old(pos) - total
        invariant CallsMatch(old(file.calls), file.calls, file.fd, 0, loads)
        invariant forall k :: 0 <= k < |loads| ==> loads[k] > 0
        invariant total > 0 ==> pos > 0
        invariant loads == [] || loads[|loads| - 1] > 0
        decreases dest.Length - total
      {
        var stop;
        ghost var loaded;
        stop, total, loaded := ReadPass(dest, total, old(file.calls), loads);
        loads := loads + loaded;
        if stop.Some? {
          return stop.value, loads;
        }
      }
      return Ok(total), loads;
    }

    /** One pass of read's loop: refills the buffer when it is used up,
        then copies what it can into dest at `total`. `stop` is the value
        read returns after this pass, if any; `loads` are the read(2)
        results of read's refills so far (see CallsMatch), and `loaded` is
        the result of this pass's refill, if it made one. */
    method ReadPass(dest: array<byte>, total: nat, ghost calls0: seq<Syscall>, ghost loads: seq<int>)
      returns (stop: Option<Result<nat>>, newTotal: nat, ghost loaded: seq<int>)
      requires Valid() && Coherent() && dest != buffer && total < dest.Length
      requires CallsMatch(calls0, file.calls, file.fd, 0, loads)
      modifies this, buffer, file, dest
      ensures Valid() && Coherent()
      ensures file.data == old(file.data) && file.fd == old(file.fd)
      ensures file.readable == old(file.readable) && file.writable == old(file.writable)
      ensures total <= newTotal <= dest.Length && Delivered() == old(Delivered()) + (newTotal - total)
      ensures forall i :: total <= i < newTotal ==> dest[i] == file.data[old(Delivered()) + (i - total)]
      ensures forall i :: 0 <= i < dest.Length && !(total <= i < newTotal) ==> dest[i] == old(dest[i])
      ensures stop.None? ==> total < newTotal && pos > 0
      // With bytes buffered, no refill and no system call.
      ensures old(pos) < old(capacity) ==>
        stop.None? && loaded == [] && file.calls == old(file.calls)
        && capacity - pos == old(capacity) - old(pos) - (newTotal - total)
      // A refill adds its load; the pass stops on an error or at end of file.
      ensures |loaded| <= 1 && CallsMatch(calls0, file.calls, file.fd, 0, loads + loaded)
      ensures stop.None? ==> forall k :: 0 <= k < |loaded| ==> loaded[k] > 0
      ensures stop.Some? ==> newTotal == total
      ensures stop.Some? && stop.value.Ok? ==>
        stop.value.value == total && Delivered() == |file.data| && loaded == [0]
      ensures stop.Some? && stop.value.Err? ==> stop.value.error != InvalidData && capacity == 0
      ensures stop == Some(Err(InvalidInput)) ==> file.fd == INVALID_FD && loaded == []
      ensures stop == Some(Err(LastOsError)) ==> |loaded| == 1 && loaded[0] < 0
    {
      newTotal, loaded := total, [];
      if pos >= capacity {
        var res;
        res, loaded := Fill(calls0, 0, loads);
        if res.Err? {
          return Some(Err(res.error)), newTotal, loaded;
        }
        if res.value == 0 {
          return Some(Ok(total)), newTotal, loaded;
        }
      }
      var n := CopyOut(dest, total);
      newTotal := total + n;
      stop := None;
    }

    /** One copying step of read: moves min(capacity - pos, |dest| - at)
        buffered bytes into dest at index `at` and advances pos past them. */
    method CopyOut(dest: array<byte>, at: nat) returns (n: nat)
      requires Valid() && Coherent() && dest != buffer
      requires at < dest.Length && pos < capacity
      modifies this`pos, dest
      ensures Valid() && Coherent()
      ensures 0 < n <= dest.Length - at && n <= old(capacity) - old(pos)
      ensures n == old(capacity) - old(pos) || n == dest.Length - at
      ensures pos == old(pos) + n && Delivered() == old(Delivered()) + n
      ensures forall i :: at <= i < at + n ==> dest[i] == file.data[old(Delivered()) + (i - at)]
      ensures forall i :: 0 <= i < dest.Length && !(at <= i < at + n) ==> dest[i] == old(dest[i])
    {
      n := if capacity - pos <= dest.Length - at then capacity - pos else dest.Length - at;
      forall i | 0 <= i < n {
        dest[at + i] := buffer[pos + i];
      }
      pos := pos + n;
    }

    /** The end of the segment read_line takes from the buffer: just past
        the first newline in [pos, capacity), or capacity if there is none
        (the position search of read_line). */
    method FindLineEnd() returns (end: nat)
      requires Valid() && pos < capacity
      ensures pos < end <= capacity
      ensures forall i :: pos <= i < end - 1 ==> buffer[i] != NEWLINE
      ensures end < capacity ==> buffer[end - 1] == NEWLINE
      ensures end == LineEnd(buffer[..capacity], pos)
    {
      var i := pos;
      while i < capacity && buffer[i] != NEWLINE
        invariant pos <= i <= capacity
        invariant forall j :: pos <= j < i ==> buffer[j] != NEWLINE
      {
        i := i + 1;
      }
      end := if i < capacity then i + 1 else capacity;
      LineEndCharacterised(buffer[..capacity], pos, end);
    }

    /** The part of read_line's loop that takes one segment from the
        buffer: the bytes from pos up to and including the first newline,
        or up to capacity when there is none. If they are well-formed UTF-8
        pos moves past them; otherwise nothing changes. */
    method TakeSegment() returns (end: nat, segment: seq<byte>, ok: bool)
      requires Valid() && Coherent() && pos < capacity
      modifies this`pos
      ensures Valid() && Coherent()
      ensures old(pos) < end <= capacity && |segment| == end - old(pos)
      ensures forall j :: 0 <= j < |segment| ==> segment[j] == file.data[old(Delivered()) + j]
      ensures forall j :: 0 <= j < |segment| - 1 ==> segment[j] != NEWLINE
      ensures end < capacity ==> segment[|segment| - 1] == NEWLINE
      ensures end - 1 < capacity && buffer[end - 1] == segment[|segment| - 1]
      ensures ok <==> ValidUtf8(segment)
      ensures ok ==> pos == end
      ensures !ok ==> pos == old(pos) && !ValidUtf8(buffer[pos..LineEnd(buffer[..capacity], pos)])
    {
      end := FindLineEnd();
      segment := buffer[pos..end];
      ghost var at := Delivered();
      assert forall j :: 0 <= j < |segment| ==> segment[j] == buffer[pos + j] == file.data[at + j];
      ok := ValidUtf8(segment);
      if ok {
        pos := end;
      }
    }

    /** The refill guard at the head of read_line's loop: a used-up buffer
        is loaded from the file. `loaded` is the load the pass works on: the
        bytes left in the buffer, or the value read(2) returned, or nothing
        when the file is closed. r is Ok(n) with n the bytes now buffered
        (0 only at end of file), or the error of the refill. The load
        extends read_line's record `loads` of the calls it has made since
        `calls0` (see CallsMatch). */
    method Fill(ghost calls0: seq<Syscall>, ghost carried: nat, ghost loads: seq<int>)
      returns (r: Result<nat>, ghost loaded: seq<int>)
      requires Valid() && Coherent()
      requires carried <= 1 && (loads == [] ==> (carried == 1 <==> pos < capacity))
      requires loads != [] ==> pos >= capacity
      requires CallsMatch(calls0, file.calls, file.fd, if loads == [] then 0 else carried, loads)
      modifies this, buffer, file
      ensures Valid() && Coherent()
      ensures file.data == old(file.data) && file.fd == old(file.fd)
      ensures file.readable == old(file.readable) && file.writable == old(file.writable)
      ensures Delivered() == old(Delivered())
      ensures r.Ok? ==> r.value == capacity - pos
      ensures r == Ok(0) ==> Delivered() == |file.data|
      ensures r.Err? ==> capacity == 0
      ensures |loaded| == 1 ==> r == FromSyscall(loaded[0])
      ensures old(pos) < old(capacity) ==>
        r == Ok(old(capacity) - old(pos)) && loaded == [old(capacity) - old(pos)] && file.calls == old(file.calls)
      ensures old(pos) >= old(capacity) ==> pos == 0
      ensures old(pos) >= old(capacity) && old(file.fd) == INVALID_FD ==>
        r == Err(InvalidInput) && loaded == [] && file.calls == old(file.calls)
      ensures old(pos) >= old(capacity) && old(file.fd) != INVALID_FD ==>
        |loaded| == 1 && file.calls == old(file.calls) + [ReadCall(file.fd, BUFFER_SIZE, loaded[0])]
      ensures CallsMatch(calls0, file.calls, file.fd, carried, loads + loaded)
      ensures |loaded| <= 1 && (loaded == [] ==> r == Err(InvalidInput) && file.fd == INVALID_FD)
      ensures r.Ok? ==> loaded == [r.value]
      ensures r == Err(LastOsError) ==> |loaded| == 1 && loaded[0] < 0
      ensures r != Err(InvalidData)
    {
      if pos >= capacity {
        ghost var result;
        r, result := Refill();
        if old(file.fd) == INVALID_FD {
          loaded := [];
          assert loads + loaded == loads;
        } else {
          loaded := [result];
          CallsStep(calls0, old(file.calls), file.fd, carried, loads, result);
        }
      } else {
        r := Ok(capacity - pos);
        loaded := [capacity - pos];
      }
    }

    /** The second half of a pass of read_line's loop, on a load of `n`
        buffered bytes: takes the segment up to the next newline and
        appends it to `line` when it is well-formed UTF-8, else stops with
        InvalidData. `segments` and `loads` are read_line's record before
        this load (see ReadLine). */
    method ScanSegment(ghost start: nat, line: seq<byte>, total: nat,
        ghost segments: seq<seq<byte>>, ghost loads: seq<int>, ghost n: int)
      returns (stop: Option<Result<nat>>, grown: seq<byte>, newTotal: nat,
               ghost scanned: seq<byte>, ghost newSegments: seq<seq<byte>>, ghost rejected: seq<byte>)
      requires Valid() && Coherent() && pos < capacity && n == capacity - pos
      requires start <= Delivered() && |line| == Delivered() - start == total
      requires forall i :: 0 <= i < |line| ==> line[i] == file.data[start + i] && line[i] != NEWLINE
      requires ValidUtf8(line)
      requires WholeLoads(segments, loads) && Joined(segments) == line
      modifies this`pos
      ensures Valid() && Coherent()
      ensures start <= Delivered() && |grown| == Delivered() - start == newTotal
      ensures forall i :: 0 <= i < |grown| ==> grown[i] == file.data[start + i]
      ensures forall i :: 0 <= i < |grown| - 1 ==> grown[i] != NEWLINE
      ensures ValidUtf8(grown)
      ensures 0 < |scanned| <= n && old(Delivered()) + |scanned| <= file.offset
      ensures forall j :: 0 <= j < |scanned| ==> scanned[j] == file.data[old(Delivered()) + j]
      ensures forall j :: 0 <= j < |scanned| - 1 ==> scanned[j] != NEWLINE
      ensures scanned[|scanned| - 1] == NEWLINE || |scanned| == n
      ensures stop == Some(Err(InvalidData)) <==> !ValidUtf8(scanned)
      ensures stop == Some(Err(InvalidData)) ==>
        grown == line && newSegments == segments && rejected == scanned && pos == old(pos)
      ensures ValidUtf8(scanned) ==>
        grown == line + scanned && newSegments == segments + [scanned] && rejected == []
        && (stop.None? <==> scanned[|scanned| - 1] != NEWLINE)
        && (stop.Some? ==> stop == Some(Ok(|grown|)))
      ensures stop.None? ==>
        pos == capacity && old(Delivered()) < Delivered() && |grown| > 0 && grown[|grown| - 1] != NEWLINE
      ensures stop.Some? && stop.value.Ok? ==>
        stop.value.value == |grown| && |grown| > 0 && grown[|grown| - 1] == NEWLINE
      ensures stop.Some? && stop.value.Err? ==> grown == line && stop.value.error == InvalidData
      ensures Joined(newSegments) == grown
      ensures stop.None? ==> WholeLoads(newSegments, loads + [n])
      ensures SegmentsFit(newSegments, loads + [n])
      ensures stop.Some? ==>
        Ended(stop.value, file.fd, grown, newSegments, loads + [n], rejected, file.data, Delivered(), file.offset)
    {
      grown, newTotal, rejected, newSegments := line, total, [], segments;
      var end, segment, ok := TakeSegment();
      scanned := segment;
      SegmentsGrow(segments, loads, segment, n);
      if !ok {
        rejected := segment;
        return Some(Err(InvalidData)), grown, newTotal, scanned, newSegments, rejected;
      }
      ValidConcat(line, segment);
      grown := line + segment;
      newTotal := newTotal + |segment|;
      newSegments := segments + [segment];
      if end < capacity || buffer[end - 1] == NEWLINE {
        return Some(Ok(newTotal)), grown, newTotal, scanned, newSegments, rejected;
      }
      stop := None;
    }

    /** The rest of one pass of read_line's loop, once Fill has given
        `res` and the load `loaded`: the pass stops on a refill error or an
        empty load, else ScanSegment takes the load's segment. */
    method ScanLoad(res: Result<nat>, ghost start: nat, line: seq<byte>, total: nat,
        ghost segments: seq<seq<byte>>, ghost loads: seq<int>, ghost loaded: seq<int>)
      returns (stop: Option<Result<nat>>, grown: seq<byte>, newTotal: nat,
               ghost newSegments: seq<seq<byte>>, ghost rejected: seq<byte>)
      requires Valid() && Coherent()
      requires start <= Delivered() && |line| == Delivered() - start == total
      requires forall i :: 0 <= i < |line| ==> line[i] == file.data[start + i] && line[i] != NEWLINE
      requires ValidUtf8(line)
      requires WholeLoads(segments, loads) && Joined(segments) == line
      requires res.Ok? ==> res.value == capacity - pos
      requires res == Ok(0) ==> Delivered() == |file.data|
      requires res.Err? ==> capacity == 0
      requires |loaded| <= 1 && (loaded == [] ==> res == Err(InvalidInput) && file.fd == INVALID_FD)
      requires |loaded| == 1 ==> res == FromSyscall(loaded[0])
      modifies this`pos
      ensures Valid() && Coherent()
      ensures start <= Delivered() && |grown| == Delivered() - start == newTotal
      ensures forall i :: 0 <= i < |grown| ==> grown[i] == file.data[start + i]
      ensures forall i :: 0 <= i < |grown| - 1 ==> grown[i] != NEWLINE
      ensures ValidUtf8(grown)
      ensures stop.None? ==>
        pos == capacity && old(Delivered()) < Delivered() && |grown| > 0 && grown[|grown| - 1] != NEWLINE
      ensures stop.Some? && stop.value.Ok? ==>
        stop.value.value == |grown|
        && (Delivered() == |file.data| || (|grown| > 0 && grown[|grown| - 1] == NEWLINE))
      ensures stop.Some? && stop.value.Err? ==>
        grown == line && (stop.value.error == InvalidData || capacity == 0)
      ensures Joined(newSegments) == grown
      ensures stop.None? ==> WholeLoads(newSegments, loads + loaded) && rejected == []
      ensures stop.Some? ==> SegmentsFit(newSegments, loads + loaded)
      ensures stop.Some? ==>
        Ended(stop.value, file.fd, grown, newSegments, loads + loaded, rejected, file.data, Delivered(), file.offset)
    {
      grown, newTotal, rejected := line, total, [];
      newSegments := segments;
      if res.Err? || res.value == 0 {
        SegmentsGrow(segments, loads, [], if loaded == [] then 0 else loaded[0]);
        stop := Some(if res.Err? then Err(res.error) else Ok(newTotal));
        EndedEarly(res, stop.value, file.fd, grown, segments, loads, loaded, file.data, Delivered(), file.offset);
        return;
      }
      assert loaded == [res.value];
      ghost var scanned;
      stop, grown, newTotal, scanned, newSegments, rejected :=
        ScanSegment(start, line, total, segments, loads, res.value);
    }

    /** One pass of read_line's loop: refills the buffer when it is used
        up, then takes the segment up to the next newline of the load and
        appends it to `line` when it is well-formed UTF-8. `stop` is the
        value read_line returns after this pass, if any; `loaded` is the
        load the pass worked on (see Fill). The ghost `segments`, `loads`
        and `rejected` carry read_line's record of the call (see ReadLine)
        through the pass; `carried` is 1 when read_line began with bytes
        in the buffer. */
    method ReadLinePass(ghost start: nat, line: seq<byte>, total: nat,
        ghost calls0: seq<Syscall>, ghost carried: nat, ghost segments: seq<seq<byte>>, ghost loads: seq<int>)
      returns (stop: Option<Result<nat>>, grown: seq<byte>, newTotal: nat,
               ghost loaded: seq<int>,
               ghost newSegments: seq<seq<byte>>, ghost newLoads: seq<int>, ghost rejected: seq<byte>)
      requires Valid() && Coherent()
      requires start <= Delivered() && |line| == Delivered() - start == total
      requires forall i :: 0 <= i < |line| ==> line[i] == file.data[start + i] && line[i] != NEWLINE
      requires ValidUtf8(line)
      requires WholeLoads(segments, loads) && Joined(segments) == line
      requires carried <= 1 && (loads == [] ==> (carried == 1 <==> pos < capacity))
      requires loads != [] ==> pos >= capacity
      requires CallsMatch(calls0, file.calls, file.fd, if loads == [] then 0 else carried, loads)
      modifies this, buffer, file
      ensures Valid() && Coherent()
      ensures file.data == old(file.data) && file.fd == old(file.fd)
      ensures file.readable == old(file.readable) && file.writable == old(file.writable)
      ensures start <= Delivered() && |grown| == Delivered() - start == newTotal
      ensures forall i :: 0 <= i < |grown| ==> grown[i] == file.data[start + i]
      ensures forall i :: 0 <= i < |grown| - 1 ==> grown[i] != NEWLINE
      ensures ValidUtf8(grown)
      ensures stop.None? ==>
        pos == capacity && old(Delivered()) < Delivered() && |grown| > 0 && grown[|grown| - 1] != NEWLINE
      ensures stop.Some? && stop.value.Ok? ==>
        stop.value.value == |grown|
        && (Delivered() == |file.data| || (|grown| > 0 && grown[|grown| - 1] == NEWLINE))
      ensures stop.Some? && stop.value.Err? ==>
        grown == line && (stop.value.error == InvalidData || capacity == 0)
      // The load the pass works on; with the bytes left in the buffer it
      // makes no system call.
      ensures old(pos) < old(capacity) ==>
        loaded == [old(capacity) - old(pos)] && file.calls == old(file.calls)
      // read_line's record, carried through the pass.
      ensures newLoads == loads + loaded
      ensures CallsMatch(calls0, file.calls, file.fd, carried, newLoads)
      ensures Joined(newSegments) == grown
      ensures stop.None? ==> WholeLoads(newSegments, newLoads) && rejected == []
      ensures stop.Some? ==> SegmentsFit(newSegments, newLoads)
      ensures stop.Some? ==>
        Ended(stop.value, file.fd, grown, newSegments, newLoads, rejected, file.data, Delivered(), file.offset)
    {
      var res;
      res, loaded := Fill(calls0, carried, loads);
      newLoads := loads + loaded;
      stop, grown, newTotal, newSegments, rejected := ScanLoad(res, start, line, total, segments, loads, loaded);
    }

    /** BufReader::read_line: returns the next line of the stream, up to
        and including its newline, gathered across as many buffer loads as
        it spans. The line is taken one segment per load, and each segment
        must be well-formed UTF-8 by itself, else the call fails with
        InvalidData and leaves that segment unread. `line` is what the
        destination String holds afterwards (it is cleared first), on the
        error paths too.

        The ghost results record how the line was gathered: `loads` holds,
        for each load used, the bytes left in the buffer (first load only)
        or the value read(2) returned; `segments` holds the accepted
        segments, one per load; `rejected` is the segment that failed the
        UTF-8 check, if any. */
    method ReadLine() returns (r: Result<nat>, line: seq<byte>,
        ghost segments: seq<seq<byte>>, ghost loads: seq<int>, ghost rejected: seq<byte>)
      requires Valid() && Coherent()
      modifies this, buffer, file
      ensures Valid() && Coherent()
      ensures file.data == old(file.data) && file.fd == old(file.fd)
      ensures file.readable == old(file.readable) && file.writable == old(file.writable)
      ensures old(Delivered()) <= Delivered() && |line| == Delivered() - old(Delivered())
      ensures forall i :: 0 <= i < |line| ==> line[i] == file.data[old(Delivered()) + i]
      ensures forall i :: 0 <= i < |line| - 1 ==> line[i] != NEWLINE
      ensures ValidUtf8(line)
      ensures r.Ok? ==>
        r.value == |line| && (Delivered() == |file.data| || (|line| > 0 && line[|line| - 1] == NEWLINE))
      ensures r.Err? ==> forall i :: 0 <= i < |line| ==> line[i] != NEWLINE
      ensures r.Err? ==> r.error == InvalidData || capacity == 0
      // The loads: the bytes left in the buffer, then one read(2) per load.
      ensures CallsMatch(old(file.calls), file.calls, file.fd, Carried(old(pos), old(capacity)), loads)
      ensures old(pos) < old(capacity) ==> loads != [] && loads[0] == old(capacity) - old(pos)
      // The line is one well-formed segment per load; a segment followed
      // by another load is that whole load.
      ensures Joined(segments) == line && SegmentsFit(segments, loads)
      // How the call ended: the file was closed, read(2) failed or
      // returned 0, the line reached its newline, or `rejected` is the
      // ill-formed segment (the bytes scanned from the last load).
      ensures Ended(r, file.fd, line, segments, loads, rejected, file.data, Delivered(), file.offset)
    {
      ghost var start := Delivered();
      ghost var o := Carried(pos, capacity);
      line, segments, loads, rejected := [], [], [], [];
      var total := 0;
      while true
        invariant Valid() && Coherent()
        invariant file.data == old(file.data) && file.fd == old(file.fd)
        invariant file.readable == old(file.readable) && file.writable == old(file.writable)
        invariant start == old(Delivered()) <= Delivered() && |line| == Delivered() - start == total
        invariant forall i :: 0 <= i < |line| ==> line[i] == file.data[start + i] && line[i] != NEWLINE
        invariant ValidUtf8(line)
        invariant WholeLoads(segments, loads) && Joined(segments) == line && rejected == []
        invariant loads == [] ==> pos == old(pos) && capacity == old(capacity) && file.calls == old(file.calls)
        invariant loads != [] ==> pos >= capacity
        invariant CallsMatch(old(file.calls), file.calls, file.fd, if loads == [] then 0 else o, loads)
        invariant o == 1 && loads != [] ==> loads[0] == old(capacity) - old(pos)
        decreases |file.data| - Delivered()
      {
        var stop;
        ghost var loaded;
        stop, line, total, loaded, segments, loads, rejected :=
          ReadLinePass(start, line, total, old(file.calls), o, segments, loads);
        if stop.Some? {
          return stop.value, line, segments, loads, rejected;
        }
      }
    }
  }
}
