/**
  The dispatch table of `syscall_handler` stated on its own, and what one
  trap guarantees: which stack words are read, which pointer arguments are
  checked, when `eax` is written, what is left untouched.
 */
module Properties {
  import opened Wrappers
  import opened Words
  import opened Memory
  import opened Process
  import opened Validate
  import opened Services
  import opened Dispatch

  /** Requests the switch has a case for. */
  predicate IsKnown(code: Word) {
    code <= SYS_CLOSE
  }

  /** Argument words each request takes; no words for an unknown code. */
  function Arity(code: Word): nat {
    if code in {SYS_EXIT, SYS_EXEC, SYS_WAIT, SYS_REMOVE, SYS_OPEN, SYS_FILESIZE, SYS_TELL, SYS_CLOSE} then 1
    else if code in {SYS_CREATE, SYS_SEEK} then 2
    else if code in {SYS_READ, SYS_WRITE} then 3
    else 0
  }

  /** The argument (0-based) checked as a user pointer before the service runs. */
  function CheckedArg(code: Word): Option<nat> {
    if code in {SYS_CREATE, SYS_REMOVE, SYS_OPEN} then Some(0)
    else if code in {SYS_READ, SYS_WRITE} then Some(1)
    else None
  }

  /** Requests whose result is stored into `eax`. */
  predicate WritesEax(code: Word) {
    code in {SYS_CREATE, SYS_REMOVE, SYS_OPEN, SYS_FILESIZE, SYS_READ, SYS_WRITE, SYS_TELL, SYS_EXEC, SYS_WAIT}
  }

  function ArgAddrs(esp: Word, n: nat): seq<Word> {
    seq(n, k requires 0 <= k < n => ArgAddr(esp, k + 1))
  }

  function Code(p: Proc, esp: Word): Word {
    LoadWord(p.mem, esp)
  }

  predicate Pre(p: Proc, env: Env, esp: Word) {
    Valid(p) && EnvFits(env) && FdIndexOk(p.mem, esp)
  }

  lemma {:induction false} ArgLoadsAddrs(esp: Word, n: nat)
    ensures Loads(ArgLoads(esp, n)) == ArgAddrs(esp, n)
    decreases n
  {
    if n > 0 {
      assert ArgLoads(esp, n) == ArgLoads(esp, n - 1) + [Load(ArgAddr(esp, n))];
      assert ArgLoads(esp, n)[..n - 1] == ArgLoads(esp, n - 1);
      ArgLoadsAddrs(esp, n - 1);
    }
  }

  predicate NoLoad(t: seq<Event>) {
    forall i :: 0 <= i < |t| ==> !t[i].Load?
  }

  /**
    `o` follows from `q` by the service alone: it only appends to the trace,
    reads no stack word, uses `file_lock` only around one file read or write,
    and leaves a valid process under the same name.
   */
  predicate ServiceTail(q: Proc, o: Outcome) {
    && Extends(q, o.p)
    && NoLoad(Delta(q, o.p))
    && Serialized(Delta(q, o.p))
    && Valid(o.p)
    && o.p.name == q.name
  }

  lemma ReadTail(q: Proc, env: Env, fd: int, buf: Word, size: Word)
    requires Valid(q) && (fd != 0 ==> InTable(fd))
    ensures match Read(q, env, fd, buf, size)
      case None => true
      case Some(r) => ServiceTail(q, Continue(r.p, ToWord(r.ret)))
  {
    if fd != 0 && q.fds[fd].Some? {
      var r := Read(q, env, fd, buf, size).value;
      assert Delta(q, r.p) == [Acquire, FsRead(q.fds[fd].value, buf, size), Release];
    }
  }

  lemma WriteTail(q: Proc, env: Env, fd: int, buf: Word, size: Word)
    requires Valid(q) && (fd != 1 ==> InTable(fd))
    ensures ServiceTail(q, Returning(Write(q, env, fd, buf, size)))
  {
    if fd != 1 && q.fds[fd].Some? {
      var r := Write(q, env, fd, buf, size);
      assert Delta(q, r.p) == [Acquire, FsWrite(q.fds[fd].value, buf, size), Release];
    }
  }

  /**
    One trap, once `esp` passed its check: `Arity(c)` words are marshalled
    and a bad word terminates; then the argument `CheckedArg(c)`, if any, is
    checked and a bad pointer terminates; otherwise the service runs. Only
    `exit` terminates from there on, only `halt` halts, only `read` can be
    left waiting; only `read` writes memory or takes console input, only
    `open` and `close` touch the table, only `write` and `exit` print, and
    `eax` is kept unless the request stores a result.
   */
  predicate Shaped(p: Proc, esp: Word, eax: Word, o: Outcome) {
    var c := Code(p, esp);
    ArmShaped(Log(p, Load(esp)), esp, eax, c, Arity(c), CheckedArg(c), o)
  }

  /** The shape of one case of the switch, entered in state `p`. */
  predicate ArmShaped(p: Proc, esp: Word, eax: Word, c: Word, n: nat, checked: Option<nat>, o: Outcome) {
    match GetArgument(p, esp, n)
    case Faulted(f) => o == f
    case Marshalled(q, a) =>
      if checked.Some? && checked.value < |a| && !IsUserAddress(a[checked.value]) then
        o == CheckAddress(q, a[checked.value]).value
      else
        && ServiceTail(q, o)
        && (o.Terminated? <==> c == SYS_EXIT)
        && (o.Halted? <==> c == SYS_HALT)
        && (o.Blocked? ==> c == SYS_READ)
        && (c != SYS_READ ==> o.p.mem == q.mem && o.p.consoleIn == q.consoleIn)
        && (c != SYS_OPEN && c != SYS_CLOSE ==> o.p.fds == q.fds)
        && (c != SYS_WRITE && c != SYS_EXIT ==> o.p.consoleOut == q.consoleOut)
        && (c != SYS_EXIT ==> o.p.exitStatus == q.exitStatus)
        && (o.Continue? && !WritesEax(c) ==> o.eax == eax)
  }

  // One arm lemma per request, proved about its `...Call` function without
  // `Step`, then one `Shaped...` lemma per request linking `Step` to it: the
  // per-request split keeps each proof obligation small for the solver.

  lemma ExitArm(p: Proc, env: Env, esp: Word, eax: Word)
    requires Valid(p) && EnvFits(env)
    ensures ArmShaped(p, esp, eax, SYS_EXIT, 1, None, ExitCall(p, esp))
  {}

  lemma CreateArm(p: Proc, env: Env, esp: Word, eax: Word)
    requires Valid(p) && EnvFits(env)
    ensures ArmShaped(p, esp, eax, SYS_CREATE, 2, Some(0), CreateCall(p, env, esp))
  {}

  lemma RemoveArm(p: Proc, env: Env, esp: Word, eax: Word)
    requires Valid(p) && EnvFits(env)
    ensures ArmShaped(p, esp, eax, SYS_REMOVE, 1, Some(0), RemoveCall(p, env, esp))
  {}

  lemma OpenArm(p: Proc, env: Env, esp: Word, eax: Word)
    requires Valid(p) && EnvFits(env)
    ensures ArmShaped(p, esp, eax, SYS_OPEN, 1, Some(0), OpenCall(p, env, esp))
  {}

  lemma FilesizeArm(p: Proc, env: Env, esp: Word, eax: Word)
    requires Valid(p) && EnvFits(env)
    ensures ArmShaped(p, esp, eax, SYS_FILESIZE, 1, None, FilesizeCall(p, env, esp))
  {}

  lemma ReadArm(p: Proc, env: Env, esp: Word, eax: Word)
    requires Valid(p) && FdDemand(SYS_READ, p.mem, esp)
    ensures ArmShaped(p, esp, eax, SYS_READ, 3, Some(1), ReadCall(p, env, esp))
  {
    match GetArgument(p, esp, 3) {
      case Faulted(f) =>
      case Marshalled(q, a) =>
        if IsUserAddress(a[1]) {
          assert a[0] == ArgWord(p.mem, esp, 1) && a[1] == ArgWord(p.mem, esp, 2);
          var fd := Signed(a[0]);
          assert fd != 0 ==> InTable(fd);
          ReadTail(q, env, fd, a[1], a[2]);
        }
    }
  }

  lemma WriteArm(p: Proc, env: Env, esp: Word, eax: Word)
    requires Valid(p) && FdDemand(SYS_WRITE, p.mem, esp)
    ensures ArmShaped(p, esp, eax, SYS_WRITE, 3, Some(1), WriteCall(p, env, esp))
  {
    match GetArgument(p, esp, 3) {
      case Faulted(f) =>
      case Marshalled(q, a) =>
        if IsUserAddress(a[1]) {
          assert a[0] == ArgWord(p.mem, esp, 1) && a[1] == ArgWord(p.mem, esp, 2);
          var fd := Signed(a[0]);
          assert fd != 1 ==> InTable(fd);
          WriteTail(q, env, fd, a[1], a[2]);
        }
    }
  }

  lemma SeekArm(p: Proc, env: Env, esp: Word, eax: Word)
    requires Valid(p) && FdDemand(SYS_SEEK, p.mem, esp)
    ensures ArmShaped(p, esp, eax, SYS_SEEK, 2, None, SeekCall(p, esp, eax))
  {}

  lemma TellArm(p: Proc, env: Env, esp: Word, eax: Word)
    requires Valid(p) && FdDemand(SYS_TELL, p.mem, esp)
    ensures ArmShaped(p, esp, eax, SYS_TELL, 1, None, TellCall(p, env, esp))
  {}

  lemma CloseArm(p: Proc, env: Env, esp: Word, eax: Word)
    requires Valid(p) && FdDemand(SYS_CLOSE, p.mem, esp)
    ensures ArmShaped(p, esp, eax, SYS_CLOSE, 1, None, CloseCall(p, esp, eax))
  {}

  lemma ExecArm(p: Proc, env: Env, esp: Word, eax: Word)
    requires Valid(p) && EnvFits(env)
    ensures ArmShaped(p, esp, eax, SYS_EXEC, 1, None, ExecCall(p, env, esp))
  {}

  lemma WaitArm(p: Proc, env: Env, esp: Word, eax: Word)
    requires Valid(p) && EnvFits(env)
    ensures ArmShaped(p, esp, eax, SYS_WAIT, 1, None, WaitCall(p, env, esp))
  {}

  lemma ShapedHalt(p: Proc, env: Env, esp: Word, eax: Word)
    requires Pre(p, env, esp) && IsUserAddress(esp) && Code(p, esp) == SYS_HALT
    ensures Shaped(p, esp, eax, Step(p, env, esp, eax))
  {
    assert CheckAddress(Log(p, Load(esp)), esp).None?;
  }

  lemma ShapedExit(p: Proc, env: Env, esp: Word, eax: Word)
    requires Pre(p, env, esp) && IsUserAddress(esp) && Code(p, esp) == SYS_EXIT
    ensures Shaped(p, esp, eax, Step(p, env, esp, eax))
  {
    var p1 := Log(p, Load(esp));
    assert CheckAddress(p1, esp).None?;
    assert Step(p, env, esp, eax) == ExitCall(p1, esp);
    assert Arity(SYS_EXIT) == 1 && CheckedArg(SYS_EXIT) == None;
    ExitArm(p1, env, esp, eax);
  }

  lemma ShapedCreate(p: Proc, env: Env, esp: Word, eax: Word)
    requires Pre(p, env, esp) && IsUserAddress(esp) && Code(p, esp) == SYS_CREATE
    ensures Shaped(p, esp, eax, Step(p, env, esp, eax))
  {
    var p1 := Log(p, Load(esp));
    assert CheckAddress(p1, esp).None?;
    assert Step(p, env, esp, eax) == CreateCall(p1, env, esp);
    assert Arity(SYS_CREATE) == 2 && CheckedArg(SYS_CREATE) == Some(0);
    CreateArm(p1, env, esp, eax);
  }

  lemma ShapedRemove(p: Proc, env: Env, esp: Word, eax: Word)
    requires Pre(p, env, esp) && IsUserAddress(esp) && Code(p, esp) == SYS_REMOVE
    ensures Shaped(p, esp, eax, Step(p, env, esp, eax))
  {
    var p1 := Log(p, Load(esp));
    assert CheckAddress(p1, esp).None?;
    assert Step(p, env, esp, eax) == RemoveCall(p1, env, esp);
    assert Arity(SYS_REMOVE) == 1 && CheckedArg(SYS_REMOVE) == Some(0);
    RemoveArm(p1, env, esp, eax);
  }

  lemma ShapedOpen(p: Proc, env: Env, esp: Word, eax: Word)
    requires Pre(p, env, esp) && IsUserAddress(esp) && Code(p, esp) == SYS_OPEN
    ensures Shaped(p, esp, eax, Step(p, env, esp, eax))
  {
    var p1 := Log(p, Load(esp));
    assert CheckAddress(p1, esp).None?;
    assert Step(p, env, esp, eax) == OpenCall(p1, env, esp);
    assert Arity(SYS_OPEN) == 1 && CheckedArg(SYS_OPEN) == Some(0);
    OpenArm(p1, env, esp, eax);
  }

  lemma ShapedFilesize(p: Proc, env: Env, esp: Word, eax: Word)
    requires Pre(p, env, esp) && IsUserAddress(esp) && Code(p, esp) == SYS_FILESIZE
    ensures Shaped(p, esp, eax, Step(p, env, esp, eax))
  {
    var p1 := Log(p, Load(esp));
    assert CheckAddress(p1, esp).None?;
    assert Step(p, env, esp, eax) == FilesizeCall(p1, env, esp);
    assert Arity(SYS_FILESIZE) == 1 && CheckedArg(SYS_FILESIZE) == None;
    FilesizeArm(p1, env, esp, eax);
  }

  lemma ShapedRead(p: Proc, env: Env, esp: Word, eax: Word)
    requires Pre(p, env, esp) && IsUserAddress(esp) && Code(p, esp) == SYS_READ
    ensures Shaped(p, esp, eax, Step(p, env, esp, eax))
  {
    var p1 := Log(p, Load(esp));
    assert CheckAddress(p1, esp).None?;
    assert Step(p, env, esp, eax) == ReadCall(p1, env, esp);
    assert Arity(SYS_READ) == 3 && CheckedArg(SYS_READ) == Some(1);
    ReadArm(p1, env, esp, eax);
  }

  lemma ShapedWrite(p: Proc, env: Env, esp: Word, eax: Word)
    requires Pre(p, env, esp) && IsUserAddress(esp) && Code(p, esp) == SYS_WRITE
    ensures Shaped(p, esp, eax, Step(p, env, esp, eax))
  {
    var p1 := Log(p, Load(esp));
    assert CheckAddress(p1, esp).None?;
    assert Step(p, env, esp, eax) == WriteCall(p1, env, esp);
    assert Arity(SYS_WRITE) == 3 && CheckedArg(SYS_WRITE) == Some(1);
    WriteArm(p1, env, esp, eax);
  }

  lemma ShapedSeek(p: Proc, env: Env, esp: Word, eax: Word)
    requires Pre(p, env, esp) && IsUserAddress(esp) && Code(p, esp) == SYS_SEEK
    ensures Shaped(p, esp, eax, Step(p, env, esp, eax))
  {
    var p1 := Log(p, Load(esp));
    assert CheckAddress(p1, esp).None?;
    assert Step(p, env, esp, eax) == SeekCall(p1, esp, eax);
    assert Arity(SYS_SEEK) == 2 && CheckedArg(SYS_SEEK) == None;
    SeekArm(p1, env, esp, eax);
  }

  lemma ShapedTell(p: Proc, env: Env, esp: Word, eax: Word)
    requires Pre(p, env, esp) && IsUserAddress(esp) && Code(p, esp) == SYS_TELL
    ensures Shaped(p, esp, eax, Step(p, env, esp, eax))
  {
    var p1 := Log(p, Load(esp));
    assert CheckAddress(p1, esp).None?;
    assert Step(p, env, esp, eax) == TellCall(p1, env, esp);
    assert Arity(SYS_TELL) == 1 && CheckedArg(SYS_TELL) == None;
    TellArm(p1, env, esp, eax);
  }

  lemma ShapedClose(p: Proc, env: Env, esp: Word, eax: Word)
    requires Pre(p, env, esp) && IsUserAddress(esp) && Code(p, esp) == SYS_CLOSE
    ensures Shaped(p, esp, eax, Step(p, env, esp, eax))
  {
    var p1 := Log(p, Load(esp));
    assert CheckAddress(p1, esp).None?;
    assert Step(p, env, esp, eax) == CloseCall(p1, esp, eax);
    assert Arity(SYS_CLOSE) == 1 && CheckedArg(SYS_CLOSE) == None;
    CloseArm(p1, env, esp, eax);
  }

  lemma ShapedExec(p: Proc, env: Env, esp: Word, eax: Word)
    requires Pre(p, env, esp) && IsUserAddress(esp) && Code(p, esp) == SYS_EXEC
    ensures Shaped(p, esp, eax, Step(p, env, esp, eax))
  {
    var p1 := Log(p, Load(esp));
    assert CheckAddress(p1, esp).None?;
    assert Step(p, env, esp, eax) == ExecCall(p1, env, esp);
    assert Arity(SYS_EXEC) == 1 && CheckedArg(SYS_EXEC) == None;
    ExecArm(p1, env, esp, eax);
  }

  lemma ShapedWait(p: Proc, env: Env, esp: Word, eax: Word)
    requires Pre(p, env, esp) && IsUserAddress(esp) && Code(p, esp) == SYS_WAIT
    ensures Shaped(p, esp, eax, Step(p, env, esp, eax))
  {
    var p1 := Log(p, Load(esp));
    assert CheckAddress(p1, esp).None?;
    assert Step(p, env, esp, eax) == WaitCall(p1, env, esp);
    assert Arity(SYS_WAIT) == 1 && CheckedArg(SYS_WAIT) == None;
    WaitArm(p1, env, esp, eax);
  }

  lemma ShapedUnknown(p: Proc, env: Env, esp: Word, eax: Word)
    requires Pre(p, env, esp) && IsUserAddress(esp) && !IsKnown(Code(p, esp))
    ensures Shaped(p, esp, eax, Step(p, env, esp, eax))
  {
    assert CheckAddress(Log(p, Load(esp)), esp).None?;
  }

  lemma StepStructure(p: Proc, env: Env, esp: Word, eax: Word)
    requires Pre(p, env, esp) && IsUserAddress(esp)
    ensures Shaped(p, esp, eax, Step(p, env, esp, eax))
  {
    var c := Code(p, esp);
    if c == SYS_HALT {
      ShapedHalt(p, env, esp, eax);
    } else if c == SYS_EXIT {
      ShapedExit(p, env, esp, eax);
    } else if c == SYS_CREATE {
      ShapedCreate(p, env, esp, eax);
    } else if c == SYS_REMOVE {
      ShapedRemove(p, env, esp, eax);
    } else if c == SYS_OPEN {
      ShapedOpen(p, env, esp, eax);
    } else if c == SYS_FILESIZE {
      ShapedFilesize(p, env, esp, eax);
    } else if c == SYS_READ {
      ShapedRead(p, env, esp, eax);
    } else if c == SYS_WRITE {
      ShapedWrite(p, env, esp, eax);
    } else if c == SYS_SEEK {
      ShapedSeek(p, env, esp, eax);
    } else if c == SYS_TELL {
      ShapedTell(p, env, esp, eax);
    } else if c == SYS_CLOSE {
      ShapedClose(p, env, esp, eax);
    } else if c == SYS_EXEC {
      ShapedExec(p, env, esp, eax);
    } else if c == SYS_WAIT {
      ShapedWait(p, env, esp, eax);
    } else {
      ShapedUnknown(p, env, esp, eax);
    }
  }

  // ---------------------------------------------------------------------
  // Trace bookkeeping

  lemma {:induction false} LockFreeSerialized(t: seq<Event>)
    requires forall i :: 0 <= i < |t| ==> LockFree(t[i])
    ensures Serialized(t)
    decreases |t|
  {
    if t != [] {
      LockFreeSerialized(t[1..]);
    }
  }

  lemma {:induction false} NoLoadLoads(t: seq<Event>)
    requires NoLoad(t)
    ensures Loads(t) == []
    decreases |t|
  {
    if t != [] {
      NoLoadLoads(t[..|t| - 1]);
    }
  }

  lemma DeltaJoin(p: Proc, q: Proc, r: Proc)
    requires Extends(p, q) && Extends(q, r)
    ensures Extends(p, r)
    ensures Delta(p, r) == Delta(p, q) + Delta(q, r)
  {
  }

  /** A marshalling fault: the code word and the good words before the bad one were read. */
  lemma FaultedDelta(p: Proc, esp: Word, n: nat) returns (k: nat)
    requires GetArgument(Log(p, Load(esp)), esp, n).Faulted?
    ensures var f := GetArgument(Log(p, Load(esp)), esp, n).o;
      && f.Terminated?
      && f.p == p.(trace := f.p.trace, exitStatus := Some(-1), consoleOut := f.p.consoleOut)
      && Extends(p, f.p)
      && Serialized(Delta(p, f.p))
      && 1 <= k <= n
      && ArgsValid(esp, k - 1)
      && !IsUserAddress(ArgAddr(esp, k))
      && Delta(p, f.p) == [Load(esp)] + ArgLoads(esp, k - 1)
  {
    var f := GetArgument(Log(p, Load(esp)), esp, n).o;
    k :| && 1 <= k <= n
         && !IsUserAddress(ArgAddr(esp, k))
         && ArgsValid(esp, k - 1)
         && f.p.trace == (p.trace + [Load(esp)]) + ArgLoads(esp, k - 1);
    FaultedTrace(p, f.p, esp, k);
  }

  /** A fault after `k - 1` good arguments leaves exactly the code load and those argument loads. */
  lemma FaultedTrace(p: Proc, q: Proc, esp: Word, k: nat)
    requires 1 <= k
    requires q.trace == (p.trace + [Load(esp)]) + ArgLoads(esp, k - 1)
    ensures Extends(p, q)
    ensures Serialized(Delta(p, q))
    ensures Delta(p, q) == [Load(esp)] + ArgLoads(esp, k - 1)
  {
    var t := [Load(esp)] + ArgLoads(esp, k - 1);
    AppendAssoc(p.trace, [Load(esp)], ArgLoads(esp, k - 1));
    AppendDelta(p, t);
    StackReads(esp, k - 1);
    assert q.trace == p.trace + t;
  }

  /** The stack reads of a trap that marshalled `n` words: code word, then arguments. */
  lemma StackReads(esp: Word, n: nat)
    ensures Loads([Load(esp)] + ArgLoads(esp, n)) == [esp] + ArgAddrs(esp, n)
    ensures Serialized([Load(esp)] + ArgLoads(esp, n))
  {
    var t := [Load(esp)] + ArgLoads(esp, n);
    LoadsAppend([Load(esp)], ArgLoads(esp, n));
    ArgLoadsAddrs(esp, n);
    assert Loads([Load(esp)]) == [esp] by {
      assert [Load(esp)][..0] == [];
    }
    assert forall i :: 0 <= i < |t| ==> t[i].Load?;
    LockFreeSerialized(t);
  }

  lemma AppendAssoc<T>(a: seq<T>, b: seq<T>, c: seq<T>)
    ensures (a + b) + c == a + (b + c)
  {
  }

  /** Appending `t` to the trace extends it by exactly `t`. */
  lemma AppendDelta(p: Proc, t: seq<Event>)
    ensures Extends(p, p.(trace := p.trace + t))
    ensures Delta(p, p.(trace := p.trace + t)) == t
  {
    var q := p.(trace := p.trace + t);
    assert q.trace[..|p.trace|] == p.trace;
    assert q.trace[|p.trace|..] == t;
  }

  lemma MarshalledDelta(p: Proc, esp: Word, n: nat)
    requires GetArgument(Log(p, Load(esp)), esp, n).Marshalled?
    ensures var q := GetArgument(Log(p, Load(esp)), esp, n).p;
      && Extends(p, q)
      && Delta(p, q) == [Load(esp)] + ArgLoads(esp, n)
      && q == p.(trace := q.trace)
  {
    var p1 := Log(p, Load(esp));
    var q := GetArgument(p1, esp, n).p;
    var t := [Load(esp)] + ArgLoads(esp, n);
    assert q == p1.(trace := p1.trace + ArgLoads(esp, n));
    AppendAssoc(p.trace, [Load(esp)], ArgLoads(esp, n));
    assert q == p.(trace := p.trace + t);
    AppendDelta(p, t);
    assert Extends(p, q) && Delta(p, q) == t;
  }

  // ---------------------------------------------------------------------
  // What one trap guarantees

  /**
    The request code is read before `esp` is checked; a bad `esp` then
    terminates with -1 having read nothing else and changed nothing but the
    exit status and the console.
   */
  lemma StepBadStack(p: Proc, env: Env, esp: Word, eax: Word)
    requires Pre(p, env, esp) && !IsUserAddress(esp)
    ensures var o := Step(p, env, esp, eax);
      && o.Terminated?
      && o.p.exitStatus == Some(-1)
      && o.p.trace == p.trace + [Load(esp)]
      && o.p.consoleOut == p.consoleOut + Notice(p.name, -1)
      && o.p == p.(trace := o.p.trace, exitStatus := Some(-1), consoleOut := o.p.consoleOut)
  {
  }

  lemma MarshalsOfShape(p: Proc, esp: Word, eax: Word, o: Outcome)
    requires Shaped(p, esp, eax, o)
    ensures var n := Arity(Code(p, esp));
      && Extends(p, o.p)
      && (ArgsValid(esp, n) ==> Loads(Delta(p, o.p)) == [esp] + ArgAddrs(esp, n))
      && (!ArgsValid(esp, n) ==>
            && o.Terminated?
            && o.p.exitStatus == Some(-1)
            && o.p.consoleOut == p.consoleOut + Notice(p.name, -1)
            && exists k ::
                 && 1 <= k <= n
                 && ArgsValid(esp, k - 1)
                 && !IsUserAddress(ArgAddr(esp, k))
                 && Delta(p, o.p) == [Load(esp)] + ArgLoads(esp, k - 1))
  {
    var c := Code(p, esp);
    var n := Arity(c);
    match GetArgument(Log(p, Load(esp)), esp, n) {
      case Faulted(f) =>
        var k := FaultedDelta(p, esp, n);
      case Marshalled(q, a) =>
        MarshalledDelta(p, esp, n);
        StackReads(esp, n);
        if CheckedArg(c).Some? && CheckedArg(c).value < |a| && !IsUserAddress(a[CheckedArg(c).value]) {
          assert o.p.trace == q.trace;
        } else {
          DeltaJoin(p, q, o.p);
          NoLoadLoads(Delta(q, o.p));
          LoadsAppend(Delta(p, q), Delta(q, o.p));
        }
    }
  }

  /**
    With `esp` valid, the handler reads exactly the words `esp`, `esp+4`, ...,
    `esp+4*Arity(c)` when they are all valid. Otherwise it stops at the first
    bad one, terminating with -1: that word and the later ones are not read
    and no service runs.
   */
  lemma StepMarshals(p: Proc, env: Env, esp: Word, eax: Word)
    requires Pre(p, env, esp) && IsUserAddress(esp)
    ensures var o := Step(p, env, esp, eax);
      var n := Arity(Code(p, esp));
      && Extends(p, o.p)
      && (ArgsValid(esp, n) ==> Loads(Delta(p, o.p)) == [esp] + ArgAddrs(esp, n))
      && (!ArgsValid(esp, n) ==>
            && o.Terminated?
            && o.p.exitStatus == Some(-1)
            && o.p.consoleOut == p.consoleOut + Notice(p.name, -1)
            && exists k ::
                 && 1 <= k <= n
                 && ArgsValid(esp, k - 1)
                 && !IsUserAddress(ArgAddr(esp, k))
                 && Delta(p, o.p) == [Load(esp)] + ArgLoads(esp, k - 1))
  {
    StepStructure(p, env, esp, eax);
    MarshalsOfShape(p, esp, eax, Step(p, env, esp, eax));
  }

  /** The checked pointer argument is one of the marshalled words. */
  lemma CheckedArgMarshalled(c: Word)
    requires CheckedArg(c).Some?
    ensures CheckedArg(c).value < Arity(c)
  {
  }

  lemma PointerOfShape(p: Proc, esp: Word, eax: Word, o: Outcome)
    requires Shaped(p, esp, eax, o)
    requires ArgsValid(esp, Arity(Code(p, esp)))
    requires Code(p, esp) != SYS_EXIT && Code(p, esp) != SYS_HALT
    ensures var c := Code(p, esp);
      o.Terminated? <==> CheckedArg(c).Some? && !IsUserAddress(ArgWord(p.mem, esp, CheckedArg(c).value + 1))
    ensures o.Terminated? ==>
      && o.p.exitStatus == Some(-1)
      && o.p.consoleOut == p.consoleOut + Notice(p.name, -1)
      && Extends(p, o.p)
      && Delta(p, o.p) == [Load(esp)] + ArgLoads(esp, Arity(Code(p, esp)))
  {
    var c := Code(p, esp);
    var m := GetArgument(Log(p, Load(esp)), esp, Arity(c));
    MarshalledDelta(p, esp, Arity(c));
    if CheckedArg(c).Some? {
      CheckedArgMarshalled(c);
      assert m.args[CheckedArg(c).value] == ArgWord(p.mem, esp, CheckedArg(c).value + 1);
    }
  }

  /**
    Which pointer argument is checked: with `esp` and the argument words
    valid, a request other than `exit` and `halt` terminates exactly when it
    has a checked pointer argument (`create`, `remove`, `open`: the first;
    `read`, `write`: the second) and that pointer is bad; it then terminates
    with -1 before the service runs. `exec`'s string is not checked.
   */
  lemma StepChecksPointer(p: Proc, env: Env, esp: Word, eax: Word)
    requires Pre(p, env, esp) && IsUserAddress(esp)
    requires ArgsValid(esp, Arity(Code(p, esp)))
    requires Code(p, esp) != SYS_EXIT && Code(p, esp) != SYS_HALT
    ensures var c := Code(p, esp);
      var o := Step(p, env, esp, eax);
      && (o.Terminated? <==> CheckedArg(c).Some? && !IsUserAddress(ArgWord(p.mem, esp, CheckedArg(c).value + 1)))
      && (o.Terminated? ==>
            && o.p.exitStatus == Some(-1)
            && o.p.consoleOut == p.consoleOut + Notice(p.name, -1)
            && Extends(p, o.p)
            && Delta(p, o.p) == [Load(esp)] + ArgLoads(esp, Arity(c)))
  {
    StepStructure(p, env, esp, eax);
    PointerOfShape(p, esp, eax, Step(p, env, esp, eax));
  }

  lemma FrameOfShape(p: Proc, esp: Word, eax: Word, o: Outcome)
    requires Valid(p) && Shaped(p, esp, eax, o)
    ensures var c := Code(p, esp);
      && Valid(o.p)
      && o.p.name == p.name
      && Extends(p, o.p)
      && Serialized(Delta(p, o.p))
      && (c != SYS_READ ==> o.p.mem == p.mem && o.p.consoleIn == p.consoleIn)
      && (c != SYS_OPEN && c != SYS_CLOSE ==> o.p.fds == p.fds)
      && (!o.Terminated? ==> o.p.exitStatus == p.exitStatus)
      && (!o.Terminated? && c != SYS_WRITE ==> o.p.consoleOut == p.consoleOut)
      && (o.Continue? && !WritesEax(c) ==> o.eax == eax)
  {
    var c := Code(p, esp);
    var n := Arity(c);
    match GetArgument(Log(p, Load(esp)), esp, n) {
      case Faulted(f) =>
        var k := FaultedDelta(p, esp, n);
      case Marshalled(q, a) =>
        MarshalledDelta(p, esp, n);
        StackReads(esp, n);
        if CheckedArg(c).Some? && CheckedArg(c).value < |a| && !IsUserAddress(a[CheckedArg(c).value]) {
          assert o.p.trace == q.trace;
        } else {
          DeltaJoin(p, q, o.p);
          SerializedAppend(Delta(p, q), Delta(q, o.p));
        }
    }
  }

  /**
    What a trap leaves alone. The process stays valid (table size kept,
    `file_lock` free) under the same name; the trace only grows, and in it
    every file read or write sits alone between an acquire and a release of
    `file_lock`. Only `read` changes memory or console input; only `open`
    and `close` change the descriptor table; only termination changes the
    exit status; only `write` and termination print; `eax` is kept unless
    the request stores a result.
   */
  lemma StepFrame(p: Proc, env: Env, esp: Word, eax: Word)
    requires Pre(p, env, esp)
    ensures var c := Code(p, esp);
      var o := Step(p, env, esp, eax);
      && Valid(o.p)
      && o.p.name == p.name
      && Extends(p, o.p)
      && Serialized(Delta(p, o.p))
      && (c != SYS_READ ==> o.p.mem == p.mem && o.p.consoleIn == p.consoleIn)
      && (c != SYS_OPEN && c != SYS_CLOSE ==> o.p.fds == p.fds)
      && (!o.Terminated? ==> o.p.exitStatus == p.exitStatus)
      && (!o.Terminated? && c != SYS_WRITE ==> o.p.consoleOut == p.consoleOut)
      && (o.Continue? && !WritesEax(c) ==> o.eax == eax)
  {
    if IsUserAddress(esp) {
      StepStructure(p, env, esp, eax);
      FrameOfShape(p, esp, eax, Step(p, env, esp, eax));
    } else {
      var o := Step(p, env, esp, eax);
      StepBadStack(p, env, esp, eax);
      assert Delta(p, o.p) == [Load(esp)];
      LockFreeSerialized([Load(esp)]);
    }
  }

  /**
    `eax` is written exactly for the requests that store a result: for
    those the value left in `eax` does not depend on the incoming one, for
    the others it is the incoming one. Nothing else depends on `eax`.
   */
  lemma StepEax(p: Proc, env: Env, esp: Word, eax1: Word, eax2: Word)
    requires Pre(p, env, esp)
    ensures var c := Code(p, esp);
      var o1 := Step(p, env, esp, eax1);
      var o2 := Step(p, env, esp, eax2);
      && o1.p == o2.p
      && (o1.Continue? <==> o2.Continue?)
      && (o1.Continue? && WritesEax(c) ==> o1.eax == o2.eax)
      && (o1.Continue? && !WritesEax(c) ==> o1.eax == eax1 && o2.eax == eax2)
      && (!o1.Continue? ==> o1 == o2)
  {
    StepFrame(p, env, esp, eax1);
    StepFrame(p, env, esp, eax2);
    var c := Code(p, esp);
    var p1 := Log(p, Load(esp));
    if IsUserAddress(esp) {
      assert CheckAddress(p1, esp).None?;
      if c == SYS_SEEK {
        assert Step(p, env, esp, eax1).p == SeekCall(p1, esp, eax1).p == SeekCall(p1, esp, eax2).p;
      } else if c == SYS_CLOSE {
        assert Step(p, env, esp, eax1).p == CloseCall(p1, esp, eax1).p == CloseCall(p1, esp, eax2).p;
      } else if IsKnown(c) {
        StepPassesEax(p, env, esp, eax1, eax2);
      }
    }
  }

  /** Apart from `seek` and `close`, the known requests never look at the incoming `eax`. */
  lemma StepPassesEax(p: Proc, env: Env, esp: Word, eax1: Word, eax2: Word)
    requires Pre(p, env, esp) && IsUserAddress(esp)
    requires IsKnown(Code(p, esp)) && Code(p, esp) != SYS_SEEK && Code(p, esp) != SYS_CLOSE
    ensures Step(p, env, esp, eax1) == Step(p, env, esp, eax2)
  {
    assert CheckAddress(Log(p, Load(esp)), esp).None?;
  }

  /** An unknown request code only costs the read of the code word. */
  lemma StepUnknown(p: Proc, env: Env, esp: Word, eax: Word)
    requires Pre(p, env, esp) && IsUserAddress(esp) && !IsKnown(Code(p, esp))
    ensures Step(p, env, esp, eax) == Continue(p.(trace := p.trace + [Load(esp)]), eax)
  {
    assert CheckAddress(Log(p, Load(esp)), esp).None?;
  }

  /** `halt` powers off after reading only the code word. */
  lemma StepHalt(p: Proc, env: Env, esp: Word, eax: Word)
    requires Pre(p, env, esp) && IsUserAddress(esp) && Code(p, esp) == SYS_HALT
    ensures Step(p, env, esp, eax) == Halted(p.(trace := p.trace + [Load(esp)]))
  {
    assert CheckAddress(Log(p, Load(esp)), esp).None?;
  }

  /**
    `exit (status)` with a readable argument: the process never returns, its
    exit status is the argument read as `int`, and the console gains the
    notice from which name and status are read back.
   */
  lemma StepExit(p: Proc, env: Env, esp: Word, eax: Word)
    requires Pre(p, env, esp) && IsUserAddress(esp) && Code(p, esp) == SYS_EXIT
    requires ArgsValid(esp, 1)
    ensures var o := Step(p, env, esp, eax);
      var status := Signed(ArgWord(p.mem, esp, 1));
      && o.Terminated?
      && o.p.exitStatus == Some(status)
      && |p.consoleOut| < |o.p.consoleOut|
      && o.p.consoleOut[..|p.consoleOut|] == p.consoleOut
      && o.p.consoleOut == p.consoleOut + Notice(p.name, status)
      && ParseNotice(o.p.consoleOut[|p.consoleOut|..]) == Some((p.name, status))
      && o.p == p.(trace := p.trace + [Load(esp), Load(ArgAddr(esp, 1))],
                   exitStatus := Some(status),
                   consoleOut := o.p.consoleOut)
  {
    var p1 := Log(p, Load(esp));
    assert CheckAddress(p1, esp).None?;
    var q := GetArgument(p1, esp, 1).p;
    assert q == p.(trace := p.trace + [Load(esp), Load(ArgAddr(esp, 1))]);
    ExitNotice(q, Signed(ArgWord(p.mem, esp, 1)));
  }
}
