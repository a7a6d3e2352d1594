/**
  Which service one trap runs, on which stack words, and where its answer
  goes: argument word `i` is the `i`-th parameter of the C routine, and a
  returned value reaches user mode as the 32-bit word in `eax`.
 */
module TrapProperties {
  import opened Wrappers
  import opened Words
  import opened Memory
  import opened Process
  import opened Validate
  import opened Services
  import opened Dispatch
  import opened Properties

  /** The state once the code word and `n` argument words have been read. */
  function AfterLoads(p: Proc, esp: Word, n: nat): Proc {
    p.(trace := p.trace + [Load(esp)] + ArgLoads(esp, n))
  }

  /** Argument word `i` of the trap. */
  function W(p: Proc, esp: Word, i: nat): Word {
    ArgWord(p.mem, esp, i)
  }

  /** The marshalled state and words of a trap whose `n` argument words are valid. */
  lemma Marshals(p: Proc, esp: Word, n: nat)
    requires ArgsValid(esp, n)
    ensures var m := GetArgument(Log(p, Load(esp)), esp, n);
      && m.Marshalled?
      && m.p == AfterLoads(p, esp, n)
      && |m.args| == n
      && forall k :: 0 <= k < n ==> m.args[k] == W(p, esp, k + 1)
  {
  }

  /** `create`: word 1 is checked, then `create (word 1, word 2)` and its answer goes to `eax`. */
  lemma TrapCreate(p: Proc, env: Env, esp: Word, eax: Word)
    requires Pre(p, env, esp) && IsUserAddress(esp) && Code(p, esp) == SYS_CREATE
    requires ArgsValid(esp, 2) && IsUserAddress(W(p, esp, 1))
    ensures var r := Create(AfterLoads(p, esp, 2), env, W(p, esp, 1), W(p, esp, 2));
      Step(p, env, esp, eax) == Continue(r.p, ToWord(r.ret))
  {
    var p1 := Log(p, Load(esp));
    assert CheckAddress(p1, esp).None?;
    assert Step(p, env, esp, eax) == CreateCall(p1, env, esp);
    Marshals(p, esp, 2);
  }

  /** `remove`: word 1 is checked, then `remove (word 1)` and its answer goes to `eax`. */
  lemma TrapRemove(p: Proc, env: Env, esp: Word, eax: Word)
    requires Pre(p, env, esp) && IsUserAddress(esp) && Code(p, esp) == SYS_REMOVE
    requires ArgsValid(esp, 1) && IsUserAddress(W(p, esp, 1))
    ensures var r := Remove(AfterLoads(p, esp, 1), env, W(p, esp, 1));
      Step(p, env, esp, eax) == Continue(r.p, ToWord(r.ret))
  {
    var p1 := Log(p, Load(esp));
    assert CheckAddress(p1, esp).None?;
    assert Step(p, env, esp, eax) == RemoveCall(p1, env, esp);
    Marshals(p, esp, 1);
  }

  /**
    `exec`: whatever word 1 is, even a kernel address, it is handed to
    `process_execute` unchecked; `eax` becomes -1 as a word when the child
    did not load, else the child's pid.
   */
  lemma TrapExec(p: Proc, env: Env, esp: Word, eax: Word)
    requires Pre(p, env, esp) && IsUserAddress(esp) && Code(p, esp) == SYS_EXEC
    requires ArgsValid(esp, 1)
    ensures var o := Step(p, env, esp, eax);
      && o.Continue?
      && o.p == AfterLoads(p, esp, 1).(trace := AfterLoads(p, esp, 1).trace + [Execute(W(p, esp, 1))])
      && o.eax == (if env.loaded then ToWord(env.child) else 0xffff_ffff)
  {
    var p1 := Log(p, Load(esp));
    assert CheckAddress(p1, esp).None?;
    assert Step(p, env, esp, eax) == ExecCall(p1, env, esp);
    Marshals(p, esp, 1);
  }

  /** `wait`: `wait (word 1)` with the word read as a signed tid; the status goes to `eax`. */
  lemma TrapWait(p: Proc, env: Env, esp: Word, eax: Word)
    requires Pre(p, env, esp) && IsUserAddress(esp) && Code(p, esp) == SYS_WAIT
    requires ArgsValid(esp, 1)
    ensures var r := WaitFor(AfterLoads(p, esp, 1), env, Signed(W(p, esp, 1)));
      Step(p, env, esp, eax) == Continue(r.p, ToWord(r.ret))
  {
    var p1 := Log(p, Load(esp));
    assert CheckAddress(p1, esp).None?;
    assert Step(p, env, esp, eax) == WaitCall(p1, env, esp);
    Marshals(p, esp, 1);
  }

  /** `open`: word 1 is checked, then `open (word 1)` and the descriptor or -1 goes to `eax`. */
  lemma TrapOpen(p: Proc, env: Env, esp: Word, eax: Word)
    requires Pre(p, env, esp) && IsUserAddress(esp) && Code(p, esp) == SYS_OPEN
    requires ArgsValid(esp, 1) && IsUserAddress(W(p, esp, 1))
    ensures var r := Open(AfterLoads(p, esp, 1), env, W(p, esp, 1));
      Step(p, env, esp, eax) == Continue(r.p, ToWord(r.ret))
  {
    var p1 := Log(p, Load(esp));
    assert CheckAddress(p1, esp).None?;
    assert Step(p, env, esp, eax) == OpenCall(p1, env, esp);
    Marshals(p, esp, 1);
  }

  /** `filesize`: `filesize (word 1)` with the word read as a signed descriptor. */
  lemma TrapFilesize(p: Proc, env: Env, esp: Word, eax: Word)
    requires Pre(p, env, esp) && IsUserAddress(esp) && Code(p, esp) == SYS_FILESIZE
    requires ArgsValid(esp, 1)
    ensures var r := Filesize(AfterLoads(p, esp, 1), env, Signed(W(p, esp, 1)));
      Step(p, env, esp, eax) == Continue(r.p, ToWord(r.ret))
  {
    var p1 := Log(p, Load(esp));
    assert CheckAddress(p1, esp).None?;
    assert Step(p, env, esp, eax) == FilesizeCall(p1, env, esp);
    Marshals(p, esp, 1);
  }

  /**
    `read`: word 2 is checked, then `read (word 1, word 2, word 3)`; the count
    or -1 goes to `eax`, and a console read still waiting for its zero byte
    leaves the trap blocked.
   */
  lemma TrapRead(p: Proc, env: Env, esp: Word, eax: Word)
    requires Pre(p, env, esp) && IsUserAddress(esp) && Code(p, esp) == SYS_READ
    requires ArgsValid(esp, 3) && IsUserAddress(W(p, esp, 2))
    ensures var q := AfterLoads(p, esp, 3);
      var fd := Signed(W(p, esp, 1));
      && (fd != 0 ==> InTable(fd))
      && match Read(q, env, fd, W(p, esp, 2), W(p, esp, 3))
         case None => Step(p, env, esp, eax) == Blocked(q)
         case Some(r) => Step(p, env, esp, eax) == Continue(r.p, ToWord(r.ret))
  {
    var p1 := Log(p, Load(esp));
    assert CheckAddress(p1, esp).None?;
    assert Step(p, env, esp, eax) == ReadCall(p1, env, esp);
    Marshals(p, esp, 3);
  }

  /** `write`: word 2 is checked, then `write (word 1, word 2, word 3)`; the count or -1 goes to `eax`. */
  lemma TrapWrite(p: Proc, env: Env, esp: Word, eax: Word)
    requires Pre(p, env, esp) && IsUserAddress(esp) && Code(p, esp) == SYS_WRITE
    requires ArgsValid(esp, 3) && IsUserAddress(W(p, esp, 2))
    ensures var fd := Signed(W(p, esp, 1));
      && (fd != 1 ==> InTable(fd))
      && var r := Write(AfterLoads(p, esp, 3), env, fd, W(p, esp, 2), W(p, esp, 3));
         Step(p, env, esp, eax) == Continue(r.p, ToWord(r.ret))
  {
    var p1 := Log(p, Load(esp));
    assert CheckAddress(p1, esp).None?;
    assert Step(p, env, esp, eax) == WriteCall(p1, env, esp);
    Marshals(p, esp, 3);
  }

  /** `seek`: `seek (word 1, word 2)`; `eax` keeps its incoming value. */
  lemma TrapSeek(p: Proc, env: Env, esp: Word, eax: Word)
    requires Pre(p, env, esp) && IsUserAddress(esp) && Code(p, esp) == SYS_SEEK
    requires ArgsValid(esp, 2)
    ensures InTable(Signed(W(p, esp, 1)))
    ensures Step(p, env, esp, eax) == Continue(Seek(AfterLoads(p, esp, 2), Signed(W(p, esp, 1)), W(p, esp, 2)), eax)
  {
    var p1 := Log(p, Load(esp));
    assert CheckAddress(p1, esp).None?;
    assert Step(p, env, esp, eax) == SeekCall(p1, esp, eax);
    Marshals(p, esp, 2);
  }

  /** `tell`: `tell (word 1)`; the position or 0 goes to `eax`. */
  lemma TrapTell(p: Proc, env: Env, esp: Word, eax: Word)
    requires Pre(p, env, esp) && IsUserAddress(esp) && Code(p, esp) == SYS_TELL
    requires ArgsValid(esp, 1)
    ensures InTable(Signed(W(p, esp, 1)))
    ensures var r := Tell(AfterLoads(p, esp, 1), env, Signed(W(p, esp, 1)));
      Step(p, env, esp, eax) == Continue(r.p, ToWord(r.ret))
  {
    var p1 := Log(p, Load(esp));
    assert CheckAddress(p1, esp).None?;
    assert Step(p, env, esp, eax) == TellCall(p1, env, esp);
    Marshals(p, esp, 1);
  }

  /** `close`: `close (word 1)`; `eax` keeps its incoming value. */
  lemma TrapClose(p: Proc, env: Env, esp: Word, eax: Word)
    requires Pre(p, env, esp) && IsUserAddress(esp) && Code(p, esp) == SYS_CLOSE
    requires ArgsValid(esp, 1)
    ensures InTable(Signed(W(p, esp, 1)))
    ensures Step(p, env, esp, eax) == Continue(Close(AfterLoads(p, esp, 1), Signed(W(p, esp, 1))), eax)
  {
    var p1 := Log(p, Load(esp));
    assert CheckAddress(p1, esp).None?;
    assert Step(p, env, esp, eax) == CloseCall(p1, esp, eax);
    Marshals(p, esp, 1);
  }

  /**
    A trap naming an empty, non-console descriptor slot: `filesize`, `read`
    and `write` put -1 (as the word `0xffffffff`) in `eax`, `tell` puts 0,
    `seek` leaves `eax` alone, and nothing but the stack reads is recorded.
   */
  lemma TrapEmptySlot(p: Proc, env: Env, esp: Word, eax: Word)
    requires Pre(p, env, esp) && IsUserAddress(esp)
    requires Code(p, esp) in {SYS_FILESIZE, SYS_READ, SYS_WRITE, SYS_SEEK, SYS_TELL}
    requires ArgsValid(esp, Arity(Code(p, esp)))
    requires var fd := Signed(W(p, esp, 1)); InTable(fd) && p.fds[fd].None?
    requires Code(p, esp) == SYS_READ ==> Signed(W(p, esp, 1)) != 0 && IsUserAddress(W(p, esp, 2))
    requires Code(p, esp) == SYS_WRITE ==> Signed(W(p, esp, 1)) != 1 && IsUserAddress(W(p, esp, 2))
    ensures var c := Code(p, esp);
      var o := Step(p, env, esp, eax);
      && o.Continue?
      && o.p == AfterLoads(p, esp, Arity(c))
      && (c in {SYS_FILESIZE, SYS_READ, SYS_WRITE} ==> o.eax == 0xffff_ffff)
      && (c == SYS_TELL ==> o.eax == 0)
      && (c == SYS_SEEK ==> o.eax == eax)
  {
    var c := Code(p, esp);
    if c == SYS_FILESIZE {
      TrapFilesize(p, env, esp, eax);
    } else if c == SYS_READ {
      TrapRead(p, env, esp, eax);
    } else if c == SYS_WRITE {
      TrapWrite(p, env, esp, eax);
    } else if c == SYS_SEEK {
      TrapSeek(p, env, esp, eax);
    } else {
      TrapTell(p, env, esp, eax);
    }
  }

  /**
    `write (1, buf, size)` as a trap: the `size` bytes at `buf` are appended
    to the console, `size` itself comes back in `eax`, and nothing but the
    console and the stack reads changes.
   */
  lemma TrapConsoleWrite(p: Proc, env: Env, esp: Word, eax: Word)
    requires Pre(p, env, esp) && IsUserAddress(esp) && Code(p, esp) == SYS_WRITE
    requires ArgsValid(esp, 3) && IsUserAddress(W(p, esp, 2)) && W(p, esp, 1) == 1
    ensures var o := Step(p, env, esp, eax);
      && o.Continue?
      && o.eax == W(p, esp, 3)
      && o.p.consoleOut == p.consoleOut + Chars(ReadBytes(p.mem, W(p, esp, 2), W(p, esp, 3)))
      && o.p == AfterLoads(p, esp, 3).(consoleOut := o.p.consoleOut)
  {
    TrapWrite(p, env, esp, eax);
  }
}
