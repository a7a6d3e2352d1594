/**
  How the descriptor services fit together: a closed descriptor behaves as
  absent for every service, an opened one is bound to its file for every
  service, and the console paths move exactly the bytes they promise.
 */
module TableProperties {
  import opened Wrappers
  import opened Words
  import opened Memory
  import opened Process
  import opened Services

  /**
    After `close (fd)` every descriptor service sees the slot as empty:
    `filesize` and off-console `read`/`write` give -1, `tell` gives 0, `seek`
    does nothing, and none of them touches the state.
   */
  lemma CloseThenAbsent(p: Proc, env: Env, fd: int, buf: Word, size: Word, position: Word)
    requires Valid(p) && InTable(fd)
    ensures var q := Close(p, fd);
      && ProcessGetFile(q, fd).None?
      && Filesize(q, env, fd) == Reply(q, -1)
      && (fd != 0 ==> Read(q, env, fd, buf, size) == Some(Reply(q, -1)))
      && (fd != 1 ==> Write(q, env, fd, buf, size) == Reply(q, -1))
      && Tell(q, env, fd) == Reply(q, 0)
      && Seek(q, fd, position) == q
  {
  }

  /**
    `close` on an empty slot still calls `file_close (NULL)` and leaves the
    table as it was; closing twice leaves the table as closing once.
   */
  lemma CloseEmptySlot(p: Proc, fd: int)
    requires Valid(p) && InTable(fd)
    ensures p.fds[fd].None? ==>
      Close(p, fd) == p.(trace := p.trace + [FsClose(None)])
    ensures var q := Close(p, fd);
      && Close(q, fd).fds == q.fds
      && Close(q, fd).trace == q.trace + [FsClose(None)]
  {
    if p.fds[fd].None? {
      assert p.fds[fd := None] == p.fds;
    }
    var q := Close(p, fd);
    assert q.fds[fd := None] == q.fds;
  }

  /**
    A successful `open` returns a descriptor that every later service uses
    for the file opened: `filesize`, `tell`, off-console `read` and `write`
    act on it and `close` hands it to `file_close`.
   */
  lemma OpenThenBound(p: Proc, env: Env, later: Env, name: Word, buf: Word, size: Word)
    requires Valid(p) && EnvFits(env) && env.found.Some?
    ensures var r := Open(p, env, name);
      var q := r.p;
      var d := r.ret;
      var f := env.found.value;
      && InTable(d)
      && ProcessGetFile(q, d) == Some(f)
      && Filesize(q, later, d) == Reply(q.(trace := q.trace + [FsLength(f)]), later.length)
      && Tell(q, later, d).p.trace == q.trace + [FsTell(f)]
      && (d != 0 ==> Read(q, later, d, buf, size).value.p.trace
                       == q.trace + [Acquire, FsRead(f, buf, size), Release])
      && (d != 1 ==> Write(q, later, d, buf, size).p.trace
                       == q.trace + [Acquire, FsWrite(f, buf, size), Release])
      && Close(q, d).trace == q.trace + [FsClose(Some(f))]
  {
  }

  /** `write (1, buf, 0)` prints nothing and returns 0. */
  lemma ConsoleWriteEmpty(p: Proc, env: Env, buf: Word)
    requires Valid(p)
    ensures Write(p, env, 1, buf, 0) == Reply(p, 0)
  {
    assert Chars(ReadBytes(p.mem, buf, 0)) == [];
    assert p.consoleOut + [] == p.consoleOut;
  }

  /**
    `read (0, buf, size)` returning `k` has placed exactly the `k` bytes typed
    before the first zero at `buf .. buf+k-1` and left every other byte of
    memory as it was, whatever `size` is.
   */
  lemma ConsoleReadContents(p: Proc, env: Env, buf: Word, size: Word)
    requires Valid(p)
    ensures var r := Read(p, env, 0, buf, size);
      r.Some? && r.value.ret <= WORD_MOD ==>
        && ReadBytes(r.value.p.mem, buf, r.value.ret) == p.consoleIn[..r.value.ret]
        && 0 !in p.consoleIn[..r.value.ret]
        && (forall x: Word :: Offset(buf, x) >= r.value.ret ==> LoadByte(r.value.p.mem, x) == LoadByte(p.mem, x))
  {
    var r := Read(p, env, 0, buf, size);
    if r.Some? && r.value.ret <= WORD_MOD {
      var k := r.value.ret;
      var line := p.consoleIn[..k];
      assert r.value.p.mem == StoreBytes(p.mem, buf, line);
      StoreThenRead(p.mem, buf, line);
      forall x: Word | Offset(buf, x) >= k
        ensures LoadByte(r.value.p.mem, x) == LoadByte(p.mem, x)
      {
        StoreBytesFrame(p.mem, buf, line, x);
      }
    }
  }
}
