/** A file handle that owns one operating-system file descriptor.

    The POSIX calls open, read, write and close are foreign code. They are
    stood in for by the Libc* methods below: each one picks its outcome
    nondeterministically within the contract POSIX gives it, and acts on
    the kernel's side of the open file (its contents, its offset and its
    access mode), which this model keeps as fields of the handle. The ghost
    field `calls` records every system call made through the handle, so
    that "no OS call is made" and "close is called exactly once" can be
    stated. */
module SimpleFile {
  import opened IoTypes

  /** How a file is to be opened. */
  datatype OpenMode = Read | Write | ReadWrite

  /** The handle's sentinel for "closed"; also what open(2) returns on failure. */
  const INVALID_FD: int := -1

  /** Permission bits given to a file that open creates: 0o644. */
  const DEFAULT_FILE_PERMISSIONS: int := 420

  // The open(2) flags, with the values Linux gives them.
  const O_RDONLY: bv32 := 0x0
  const O_WRONLY: bv32 := 0x1
  const O_RDWR: bv32 := 0x2
  const O_ACCMODE: bv32 := 0x3
  const O_CREAT: bv32 := 0x40
  const O_TRUNC: bv32 := 0x200

  /** What the kernel makes of a set of open flags. */
  predicate Readable(flags: bv32) {
    flags & O_ACCMODE == O_RDONLY || flags & O_ACCMODE == O_RDWR
  }

  predicate Writable(flags: bv32) {
    flags & O_ACCMODE == O_WRONLY || flags & O_ACCMODE == O_RDWR
  }

  predicate Creates(flags: bv32) {
    flags & O_CREAT != 0
  }

  predicate Truncates(flags: bv32) {
    flags & O_TRUNC != 0
  }

  /** The flags passed to open(2) for each mode. */
  function Flags(mode: OpenMode): (flags: bv32)
    ensures Readable(flags) <==> mode != OpenMode.Write
    ensures Writable(flags) <==> mode != OpenMode.Read
    ensures Creates(flags) <==> mode != OpenMode.Read
    ensures Truncates(flags) <==> mode == OpenMode.Write
  {
    match mode
    case Read => O_RDONLY
    case Write => O_WRONLY | O_CREAT | O_TRUNC
    case ReadWrite => O_RDWR | O_CREAT
  }

  /** Recovers the mode from a set of flags, if it is one Flags produces. */
  function ModeOf(flags: bv32): Option<OpenMode> {
    var access := flags & O_ACCMODE;
    if access == O_RDONLY && !Creates(flags) && !Truncates(flags) then Some(OpenMode.Read)
    else if access == O_WRONLY && Creates(flags) && Truncates(flags) then Some(OpenMode.Write)
    else if access == O_RDWR && Creates(flags) && !Truncates(flags) then Some(OpenMode.ReadWrite)
    else None
  }

  /** Flags loses nothing: the mode can be read back from its flags. */
  lemma FlagsRoundTrip(mode: OpenMode)
    ensures ModeOf(Flags(mode)) == Some(mode)
  {
  }

  /** A path can be handed to the OS as a C string: it holds no NUL. (A
      path of Dafny characters is always valid Unicode, so the other way
      conversion can fail, a path that is not UTF-8, cannot arise here.) */
  predicate Representable(path: string) {
    forall i :: 0 <= i < |path| ==> path[i] != '\0'
  }

  /** The arguments of one open(2) call. */
  datatype OpenArgs = OpenArgs(path: string, flags: bv32, permissions: int)

  /** The checks and argument building that File.open does before it calls
      the OS: an empty or unrepresentable path is refused with InvalidInput. */
  function OpenRequest(path: string, mode: OpenMode): (r: Result<OpenArgs>)
    ensures r.Err? <==> |path| == 0 || !Representable(path)
    ensures r.Err? ==> r.error == InvalidInput
    ensures r.Ok? ==> r.value.path == path
    ensures r.Ok? ==> r.value.flags == Flags(mode) && ModeOf(r.value.flags) == Some(mode)
    ensures r.Ok? ==> r.value.permissions == DEFAULT_FILE_PERMISSIONS
  {
    if |path| == 0 then Err(InvalidInput)
    else if !Representable(path) then Err(InvalidInput)
    else
      FlagsRoundTrip(mode);
      Ok(OpenArgs(path, Flags(mode), DEFAULT_FILE_PERMISSIONS))
  }

  /** How read and write turn the OS's return value into a result: a
      negative value is the OS's error, any other is the byte count. */
  function FromSyscall(result: int): (r: Result<nat>)
    ensures r.Err? <==> result < 0
    ensures r.Err? ==> r.error == LastOsError
    ensures r.Ok? ==> r.value == result
  {
    if result < 0 then Err(LastOsError) else Ok(result)
  }

  /** One system call, with the value it returned. */
  datatype Syscall =
    | OpenCall(args: OpenArgs, result: int)
    | ReadCall(fd: int, count: nat, result: int)
    | WriteCall(fd: int, count: nat, result: int)
    | CloseCall(fd: int)

  /** The contents of the file after writing `src` at `offset`. */
  function Overwrite(data: seq<byte>, offset: nat, src: seq<byte>): (d: seq<byte>)
    requires offset <= |data|
    ensures |d| == if offset + |src| <= |data| then |data| else offset + |src|
    ensures d[..offset] == data[..offset]
    ensures d[offset..offset + |src|] == src
    ensures offset + |src| <= |data| ==> d[offset + |src|..] == data[offset + |src|..]
  {
    data[..offset] + src + if offset + |src| <= |data| then data[offset + |src|..] else []
  }

  class File {
    /** The descriptor; INVALID_FD once the handle is closed. */
    var fd: int

    // The kernel's side of the open file: its contents, the file offset,
    // and whether it was opened for reading and for writing.
    var data: seq<byte>
    var offset: nat
    var readable: bool
    var writable: bool

    /** The system calls made through this handle, oldest first. */
    ghost var calls: seq<Syscall>

    ghost predicate Valid()
      reads this
    {
      offset <= |data|
    }

    /** The most recent system call. */
    ghost function LastCall(): Syscall
      reads this
      requires calls != []
    {
      calls[|calls| - 1]
    }

    /** A handle over descriptor `fd` (a struct literal `File { fd }` in the
        source), with the kernel state given. */
    constructor Wrap(fd: int, data: seq<byte>, readable: bool, writable: bool, ghost calls: seq<Syscall>)
      ensures Valid()
      ensures this.fd == fd && this.data == data && offset == 0
      ensures this.readable == readable && this.writable == writable && this.calls == calls
    {
      this.fd := fd;
      this.data := data;
      this.offset := 0;
      this.readable := readable;
      this.writable := writable;
      this.calls := calls;
    }

    /** Stand-in for open(2). `onDisk` is what the file system holds at the
        path before the call (None: no such file). It returns a descriptor
        or -1; it cannot succeed on a missing file unless O_CREAT is given,
        and a file it creates or truncates is empty. */
    static method LibcOpen(args: OpenArgs, onDisk: Option<seq<byte>>) returns (fd: int, data: seq<byte>)
      ensures fd == INVALID_FD || 0 <= fd < 0x8000_0000
      ensures onDisk.None? && !Creates(args.flags) ==> fd == INVALID_FD
      ensures fd != INVALID_FD ==>
        data == if onDisk.None? || Truncates(args.flags) then [] else onDisk.value
    {
      data := [];
      if onDisk.None? && !Creates(args.flags) {
        fd := INVALID_FD;  // ENOENT
        return;
      }
      var fails: bool :| true;  // permission denied, too many open files, ...
      if fails {
        fd := INVALID_FD;
        return;
      }
      fd :| 0 <= fd < 0x8000_0000;
      if onDisk.Some? && !Truncates(args.flags) {
        data := onDisk.value;
      }
    }

    /** Stand-in for read(2): -1 on error, otherwise it copies k <= |buf|
        bytes from the file offset into buf; k is 0 only for an empty buf
        or at end of file. */
    method LibcRead(buf: array<byte>) returns (result: int)
      requires Valid()
      modifies this, buf
      ensures Valid()
      ensures fd == old(fd) && data == old(data)
      ensures readable == old(readable) && writable == old(writable)
      ensures calls == old(calls) + [ReadCall(fd, buf.Length, result)]
      ensures -1 <= result <= buf.Length
      ensures result < 0 ==> offset == old(offset) && buf[..] == old(buf[..])
      ensures result >= 0 ==> offset == old(offset) + result
      ensures result >= 0 ==> buf[..result] == data[old(offset)..offset]
      ensures result >= 0 ==> buf[result..] == old(buf[result..])
      ensures result == 0 ==> buf.Length == 0 || offset == |data|
    {
      var fails: bool :| true;  // EINTR, EIO, ...
      if fd < 0 || !readable || fails {
        result := -1;
      } else {
        var k: nat :| k <= buf.Length && offset + k <= |data|
                     && (k == 0 ==> buf.Length == 0 || offset == |data|);
        forall i | 0 <= i < k {
          buf[i] := data[offset + i];
        }
        offset := offset + k;
        result := k;
      }
      calls := calls + [ReadCall(fd, buf.Length, result)];
    }

    /** Stand-in for write(2): -1 on error, otherwise it writes the first
        k <= |buf| bytes of buf at the file offset. */
    method LibcWrite(buf: seq<byte>) returns (result: int)
      requires Valid()
      modifies this
      ensures Valid()
      ensures fd == old(fd) && readable == old(readable) && writable == old(writable)
      ensures calls == old(calls) + [WriteCall(fd, |buf|, result)]
      ensures -1 <= result <= |buf|
      ensures result < 0 ==> offset == old(offset) && data == old(data)
      ensures result >= 0 ==> offset == old(offset) + result
      ensures result >= 0 ==> data == Overwrite(old(data), old(offset), buf[..result])
    {
      var fails: bool :| true;  // ENOSPC, EIO, ...
      if fd < 0 || !writable || fails {
        result := -1;
      } else {
        var k: nat :| k <= |buf|;
        data := Overwrite(data, offset, buf[..k]);
        offset := offset + k;
        result := k;
      }
      calls := calls + [WriteCall(fd, |buf|, result)];
    }

    /** Stand-in for close(2); its result is not used by the handle. */
    method LibcClose()
      modifies this
      ensures fd == old(fd) && data == old(data) && offset == old(offset)
      ensures readable == old(readable) && writable == old(writable)
      ensures calls == old(calls) + [CloseCall(fd)]
    {
      calls := calls + [CloseCall(fd)];
    }

    /** File::open: refuse an empty or unrepresentable path before any OS
        call, else call open(2) with the mode's flags and 0o644, and fail
        exactly when it returns -1. `issued` is the system calls made. */
    static method Open(path: string, mode: OpenMode, onDisk: Option<seq<byte>>)
      returns (r: Result<File>, ghost issued: seq<Syscall>)
      ensures OpenRequest(path, mode).Err? ==> r == Err(InvalidInput) && issued == []
      ensures OpenRequest(path, mode).Ok? ==>
        |issued| == 1 && issued[0].OpenCall? && issued[0].args == OpenRequest(path, mode).value
      ensures OpenRequest(path, mode).Ok? ==>
        (r.Err? <==> issued[0].result == INVALID_FD) && (r.Err? ==> r.error == LastOsError)
      ensures r.Ok? ==> fresh(r.value) && r.value.Valid() && r.value.calls == issued
      ensures r.Ok? ==> r.value.fd == issued[0].result && r.value.fd >= 0 && r.value.offset == 0
      ensures r.Ok? ==> r.value.readable == (mode != OpenMode.Write)
      ensures r.Ok? ==> r.value.writable == (mode != OpenMode.Read)
      ensures r.Ok? ==> r.value.data == if onDisk.None? || mode == OpenMode.Write then [] else onDisk.value
      ensures mode == OpenMode.Read && onDisk.None? ==> r.Err?
    {
      issued := [];
      var request := OpenRequest(path, mode);
      if request.Err? {
        return Err(request.error), issued;
      }
      var args := request.value;
      var fd, contents := LibcOpen(args, onDisk);
      issued := [OpenCall(args, fd)];
      if fd == INVALID_FD {
        return Err(LastOsError), issued;
      }
      var file := new File.Wrap(fd, contents, Readable(args.flags), Writable(args.flags), issued);
      return Ok(file), issued;
    }

    /** File::read: InvalidInput on a closed handle without calling the OS;
        otherwise one read(2) of |buf| bytes, its result mapped by FromSyscall. */
    method Read(buf: array<byte>) returns (r: Result<nat>)
      requires Valid()
      modifies this, buf
      ensures Valid()
      ensures fd == old(fd) && data == old(data)
      ensures readable == old(readable) && writable == old(writable)
      ensures old(fd) == INVALID_FD ==>
        r == Err(InvalidInput) && calls == old(calls) && offset == old(offset) && buf[..] == old(buf[..])
      ensures old(fd) != INVALID_FD ==>
        |calls| == |old(calls)| + 1 && calls[..|old(calls)|] == old(calls)
        && LastCall().ReadCall? && LastCall().fd == fd && LastCall().count == buf.Length
        && r == FromSyscall(LastCall().result)
      ensures r.Err? ==> offset == old(offset) && buf[..] == old(buf[..])
      ensures r.Ok? ==> r.value <= buf.Length && offset == old(offset) + r.value
      ensures r.Ok? ==> buf[..r.value] == data[old(offset)..offset] && buf[r.value..] == old(buf[r.value..])
      ensures r.Ok? && r.value == 0 ==> buf.Length == 0 || offset == |data|
      ensures buf.Length == 0 && r.Ok? ==> r.value == 0
    {
      if fd == INVALID_FD {
        return Err(InvalidInput);
      }
      var result := LibcRead(buf);
      r := FromSyscall(result);
    }

    /** File::write: InvalidInput on a closed handle without calling the
        OS; otherwise one write(2) of |buf| bytes, mapped by FromSyscall. */
    method Write(buf: seq<byte>) returns (r: Result<nat>)
      requires Valid()
      modifies this
      ensures Valid()
      ensures fd == old(fd) && readable == old(readable) && writable == old(writable)
      ensures old(fd) == INVALID_FD ==>
        r == Err(InvalidInput) && calls == old(calls) && offset == old(offset) && data == old(data)
      ensures old(fd) != INVALID_FD ==>
        |calls| == |old(calls)| + 1 && calls[..|old(calls)|] == old(calls)
        && LastCall().WriteCall? && LastCall().fd == fd && LastCall().count == |buf|
        && r == FromSyscall(LastCall().result)
      ensures r.Err? ==> offset == old(offset) && data == old(data)
      ensures r.Ok? ==> r.value <= |buf| && offset == old(offset) + r.value
      ensures r.Ok? ==> data == Overwrite(old(data), old(offset), buf[..r.value])
    {
      if fd == INVALID_FD {
        return Err(InvalidInput);
      }
      var result := LibcWrite(buf);
      r := FromSyscall(result);
    }

    /** Drop for File: close an open descriptor once and mark the handle
        closed; on a closed handle do nothing. */
    method Drop()
      modifies this
      ensures fd == INVALID_FD
      ensures data == old(data) && offset == old(offset)
      ensures readable == old(readable) && writable == old(writable)
      ensures calls == old(calls) + if old(fd) != INVALID_FD then [CloseCall(old(fd))] else []
    {
      if fd != INVALID_FD {
        LibcClose();
        fd := INVALID_FD;
      }
    }
  }

  /** Releasing a handle twice closes its descriptor at most once: the
      second release is a no-op. */
  method ReleaseTwice(f: File)
    modifies f
    ensures f.fd == INVALID_FD
    ensures f.calls == old(f.calls) + if old(f.fd) != INVALID_FD then [CloseCall(old(f.fd))] else []
  {
    f.Drop();
    f.Drop();
  }
}
