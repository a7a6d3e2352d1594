/**
  The service routines of `syscall.c`: `create`, `remove`, `exec`, `wait`,
  `open`, `filesize`, `read`, `write`, `seek`, `tell` and `close`. What the
  collaborators outside the file return (file system, process creation,
  `process_wait`, `process_add_file`) is given as an `Env`.
 */
module Services {
  import opened Wrappers
  import opened Words
  import opened Memory
  import opened Process

  /** The answers of the collaborators for one trap. */
  datatype Env = Env(
    created: bool,           // filesys_create
    removed: bool,           // filesys_remove
    found: Option<FileId>,  // filesys_open; None for NULL
    slot: int,               // the descriptor process_add_file binds the opened file to
    length: int,             // file_length
    fileBytes: seq<Byte>,    // what file_read copies into the buffer
    written: int,            // file_write's count
    position: int,           // file_tell
    child: int,              // process_execute's pid
    loaded: bool,            // the child's load flag once sema_load is downed
    reaped: int)             // process_wait's status

  /** `process_add_file` can only bind a slot the table has. */
  predicate EnvFits(env: Env) {
    env.found.Some? ==> InTable(env.slot)
  }

  /** A service that returned: the new state and its C return value. */
  datatype Reply = Reply(p: Proc, ret: int)

  /** The bytes of `bs` as console characters. */
  function Chars(bs: seq<Byte>): (s: string)
    ensures |s| == |bs|
    ensures forall i :: 0 <= i < |bs| ==> s[i] as int == bs[i]
  {
    seq(|bs|, i requires 0 <= i < |bs| => bs[i] as char)
  }

  /**
    `process_get_file (fd)`, which is not part of this model: the table
    slot, and absent for a descriptor outside the table.
   */
  function ProcessGetFile(p: Proc, fd: int): (f: Option<FileId>)
    ensures !(0 <= fd < |p.fds|) ==> f.None?
    ensures 0 <= fd < |p.fds| ==> f == p.fds[fd]
  {
    if 0 <= fd < |p.fds| then p.fds[fd] else None
  }

  /** `create (file, initial_size)`: the file system's verdict as 1 or 0. */
  function Create(p: Proc, env: Env, name: Word, size: Word): (r: Reply)
    ensures r.ret == 1 <==> env.created
    ensures r.ret == 0 <==> !env.created
    ensures r.p == p.(trace := p.trace + [FsCreate(name, size)])
  {
    Reply(Log(p, FsCreate(name, size)), if env.created then 1 else 0)
  }

  /** `remove (file)`: the file system's verdict as 1 or 0. */
  function Remove(p: Proc, env: Env, name: Word): (r: Reply)
    ensures r.ret == 1 <==> env.removed
    ensures r.ret == 0 <==> !env.removed
    ensures r.p == p.(trace := p.trace + [FsRemove(name)])
  {
    Reply(Log(p, FsRemove(name)), if env.removed then 1 else 0)
  }

  /**
    `exec (cmd_line)` after `sema_down (&cp->sema_load)`: -1 when the child
    failed to load, its pid otherwise. The command line is passed on unread.
   */
  function Exec(p: Proc, env: Env, cmdLine: Word): (r: Reply)
    ensures !env.loaded ==> r.ret == -1
    ensures env.loaded ==> r.ret == env.child
    ensures r.p == p.(trace := p.trace + [Execute(cmdLine)])
  {
    var q := Log(p, Execute(cmdLine));
    if !env.loaded then Reply(q, -1) else Reply(q, env.child)
  }

  /** `wait (tid)`: whatever `process_wait` reports. */
  function WaitFor(p: Proc, env: Env, tid: int): (r: Reply)
    ensures r.ret == env.reaped
    ensures r.p == p.(trace := p.trace + [Wait(tid)])
  {
    Reply(Log(p, Wait(tid)), env.reaped)
  }

  /**
    `open (file_name)`: -1 when the file system finds no file; otherwise the
    descriptor `process_add_file` returns, now bound to the file found, and
    every other slot as it was.
   */
  function Open(p: Proc, env: Env, name: Word): (r: Reply)
    requires Valid(p) && EnvFits(env)
    ensures Valid(r.p)
    ensures r.p.trace == p.trace + [FsOpen(name)]
    ensures env.found.None? ==> r.ret == -1 && r.p.fds == p.fds
    ensures env.found.Some? ==> r.ret == env.slot && ProcessGetFile(r.p, r.ret) == env.found
    ensures forall i :: 0 <= i < |p.fds| && i != r.ret ==> r.p.fds[i] == p.fds[i]
    ensures r.p == p.(trace := r.p.trace, fds := r.p.fds)
  {
    var q := Log(p, FsOpen(name));
    match env.found
    case None => Reply(q, -1)
    case Some(f) => Reply(q.(fds := q.fds[env.slot := Some(f)]), env.slot)
  }

  /** `filesize (fd)`: -1 for an absent file, else the file's length. */
  function Filesize(p: Proc, env: Env, fd: int): (r: Reply)
    ensures ProcessGetFile(p, fd).None? ==> r == Reply(p, -1)
    ensures ProcessGetFile(p, fd).Some? ==>
      r == Reply(Log(p, FsLength(ProcessGetFile(p, fd).value)), env.length)
  {
    match ProcessGetFile(p, fd)
    case None => Reply(p, -1)
    case Some(f) => Reply(Log(p, FsLength(f)), env.length)
  }

  /** Index of the first zero byte of `s`, if any. */
  function FirstZero(s: seq<Byte>): (r: Option<nat>)
    ensures r.Some? ==> r.value < |s| && s[r.value] == 0
    ensures r.Some? ==> forall j :: 0 <= j < r.value ==> s[j] != 0
    ensures r.None? ==> forall j :: 0 <= j < |s| ==> s[j] != 0
    decreases |s|
  {
    if s == [] then None
    else if s[0] == 0 then Some(0)
    else match FirstZero(s[1..])
      case None => None
      case Some(k) => Some(k + 1)
  }

  /**
    The console branch of `read`: `input_getc` until it yields a zero byte,
    each byte stored at `buf`, `buf+1`, ...; the zero is consumed but not
    stored, and `size` is ignored. `None` when the input typed so far has no
    zero byte: the call is still waiting.
   */
  function ReadConsole(p: Proc, buf: Word): (r: Option<Reply>)
    ensures r.None? <==> 0 !in p.consoleIn
    ensures r.Some? ==>
      var k := r.value.ret;
      && 0 <= k < |p.consoleIn|
      && p.consoleIn == p.consoleIn[..k] + [0] + r.value.p.consoleIn
      && 0 !in p.consoleIn[..k]
      && r.value.p.mem == StoreBytes(p.mem, buf, p.consoleIn[..k])
      && r.value.p == p.(mem := r.value.p.mem, consoleIn := r.value.p.consoleIn)
  {
    match FirstZero(p.consoleIn)
    case None => None
    case Some(k) =>
      assert p.consoleIn == p.consoleIn[..k] + [0] + p.consoleIn[k + 1..];
      Some(Reply(p.(mem := StoreBytes(p.mem, buf, p.consoleIn[..k]),
                    consoleIn := p.consoleIn[k + 1..]), k))
  }

  /**
    `read (fd, buffer, size)`. Descriptor 0 reads the console. Any other
    descriptor indexes `fd_arr` unchecked, hence the requirement that it lie
    in the table; an empty slot gives -1; a bound slot runs `file_read`
    alone under `file_lock`.
   */
  function Read(p: Proc, env: Env, fd: int, buf: Word, size: Word): (r: Option<Reply>)
    requires Valid(p)
    requires fd != 0 ==> InTable(fd)
    ensures fd == 0 ==> r == ReadConsole(p, buf)
    ensures fd != 0 && p.fds[fd].None? ==> r == Some(Reply(p, -1))
    ensures fd != 0 && p.fds[fd].Some? ==>
      && r.Some?
      && r.value.ret == |env.fileBytes|
      && !r.value.p.lockHeld
      && r.value.p.trace == p.trace + [Acquire, FsRead(p.fds[fd].value, buf, size), Release]
      && r.value.p.mem == StoreBytes(p.mem, buf, env.fileBytes)
      && r.value.p == p.(trace := r.value.p.trace, mem := r.value.p.mem)
  {
    if fd == 0 then ReadConsole(p, buf)
    else
      match p.fds[fd]
      case None => Some(Reply(p, -1))
      case Some(f) =>
        var q := Log(AcquireLock(p), FsRead(f, buf, size));
        var q' := q.(mem := StoreBytes(q.mem, buf, env.fileBytes));
        Some(Reply(ReleaseLock(q'), |env.fileBytes|))
  }

  /**
    `write (fd, buffer, size)`. Descriptor 1 hands `size` bytes to `putbuf`
    and returns `size`; any other descriptor indexes `fd_arr` unchecked; an
    empty slot gives -1; a bound slot runs `file_write` alone under
    `file_lock`.
   */
  function Write(p: Proc, env: Env, fd: int, buf: Word, size: Word): (r: Reply)
    requires Valid(p)
    requires fd != 1 ==> InTable(fd)
    ensures fd == 1 ==>
      && r.p.consoleOut == p.consoleOut + Chars(ReadBytes(p.mem, buf, size))
      && ToWord(r.ret) == size
      && r.p == p.(consoleOut := r.p.consoleOut)
    ensures fd != 1 && p.fds[fd].None? ==> r == Reply(p, -1)
    ensures fd != 1 && p.fds[fd].Some? ==>
      && r.ret == env.written
      && !r.p.lockHeld
      && r.p.trace == p.trace + [Acquire, FsWrite(p.fds[fd].value, buf, size), Release]
      && r.p == p.(trace := r.p.trace)
  {
    if fd == 1 then
      Reply(p.(consoleOut := p.consoleOut + Chars(ReadBytes(p.mem, buf, size))), Signed(size))
    else
      match p.fds[fd]
      case None => Reply(p, -1)
      case Some(f) => Reply(ReleaseLock(Log(AcquireLock(p), FsWrite(f, buf, size))), env.written)
  }

  /** `seek (fd, position)`: `file_seek` to `0 + position`, or nothing for an empty slot. */
  function Seek(p: Proc, fd: int, position: Word): (q: Proc)
    requires Valid(p) && InTable(fd)
    ensures p.fds[fd].None? ==> q == p
    ensures p.fds[fd].Some? ==> q == p.(trace := p.trace + [FsSeek(p.fds[fd].value, position)])
  {
    match p.fds[fd]
    case None => p
    case Some(f) => Log(p, FsSeek(f, position))
  }

  /** `tell (fd)`: 0 for an empty slot, else `file_tell`'s answer. */
  function Tell(p: Proc, env: Env, fd: int): (r: Reply)
    requires Valid(p) && InTable(fd)
    ensures p.fds[fd].None? ==> r == Reply(p, 0)
    ensures p.fds[fd].Some? ==>
      r == Reply(p.(trace := p.trace + [FsTell(p.fds[fd].value)]), env.position)
  {
    match p.fds[fd]
    case None => Reply(p, 0)
    case Some(f) => Reply(Log(p, FsTell(f)), env.position)
  }

  /**
    `close (fd)`: `file_close` on whatever the slot holds, NULL included, then
    the slot is emptied and every other slot is left alone.
   */
  function Close(p: Proc, fd: int): (q: Proc)
    requires Valid(p) && InTable(fd)
    ensures Valid(q)
    ensures q.fds[fd].None?
    ensures forall i :: 0 <= i < |p.fds| && i != fd ==> q.fds[i] == p.fds[i]
    ensures q.trace == p.trace + [FsClose(p.fds[fd])]
    ensures q == p.(fds := q.fds, trace := q.trace)
  {
    Log(p, FsClose(p.fds[fd])).(fds := p.fds[fd := None])
  }
}
