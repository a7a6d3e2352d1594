/**
  The state of the trapping process as the system-call layer sees it, the
  record of what the layer did (`trace`), and the termination path shared by
  `exit` and by a failed address check.
 */
module Process {
  import opened Wrappers
  import opened Words
  import opened Memory
  import opened Decimal

  /** Opaque handle of an open file (`struct file *`), owned by the file system. */
  type FileId = nat

  /**
    Number of slots the model gives the per-thread `fd_arr` array; the
    header declaring the real size is not part of this model.
   */
  const FdCapacity: nat := 128

  /** A descriptor that indexes `fd_arr` without running off its end. */
  predicate InTable(fd: int) {
    0 <= fd < FdCapacity
  }

  /**
    One observable action of the system-call layer: a word it read from the
    user stack, a `file_lock` transition, or a call into a collaborator.
   */
  datatype Event =
    | Load(addr: Word)
    | Acquire
    | Release
    | FsCreate(name: Word, size: Word)
    | FsRemove(name: Word)
    | FsOpen(name: Word)
    | FsLength(file: FileId)
    | FsRead(file: FileId, buf: Word, size: Word)
    | FsWrite(file: FileId, buf: Word, size: Word)
    | FsSeek(file: FileId, position: Word)
    | FsTell(file: FileId)
    | FsClose(handle: Option<FileId>)
    | Execute(cmdLine: Word)
    | Wait(tid: int)

  /**
    The calling process: its name, user memory, descriptor table (`fd_arr`,
    `None` for NULL), exit status, console input still to be typed, console
    output so far, whether it holds `file_lock`, and the trace of actions.
   */
  datatype Proc = Proc(
    name: string,
    mem: Mem,
    fds: seq<Option<FileId>>,
    exitStatus: Option<int>,
    consoleIn: seq<Byte>,
    consoleOut: string,
    lockHeld: bool,
    trace: seq<Event>)

  /** Between traps the table has its fixed size and the lock is free. */
  predicate Valid(p: Proc) {
    |p.fds| == FdCapacity && !p.lockHeld
  }

  /** How one trap ends: back to user mode with `eax`, or never. */
  datatype Outcome =
    | Continue(p: Proc, eax: Word)
    | Terminated(p: Proc)
    | Halted(p: Proc)
    | Blocked(p: Proc)

  function AcquireLock(p: Proc): (q: Proc)
    requires !p.lockHeld
    ensures q.lockHeld
  {
    p.(lockHeld := true, trace := p.trace + [Acquire])
  }

  function ReleaseLock(p: Proc): (q: Proc)
    requires p.lockHeld
    ensures !q.lockHeld
  {
    p.(lockHeld := false, trace := p.trace + [Release])
  }

  function Log(p: Proc, e: Event): Proc {
    p.(trace := p.trace + [e])
  }

  /** What the trace gained from `p` to `q`. */
  function Delta(p: Proc, q: Proc): seq<Event>
    requires |p.trace| <= |q.trace|
  {
    q.trace[|p.trace|..]
  }

  predicate Extends(p: Proc, q: Proc) {
    |p.trace| <= |q.trace| && q.trace[..|p.trace|] == p.trace
  }

  /** A state extending `p` after event `e` extends `p` with `e` as its first new event. */
  lemma LoggedFirst(p: Proc, e: Event, q: Proc)
    requires Extends(Log(p, e), q)
    ensures Extends(p, q) && |p.trace| < |q.trace| && q.trace[|p.trace|] == e
  {
    assert q.trace[..|p.trace| + 1] == p.trace + [e];
    assert q.trace[..|p.trace|] == (p.trace + [e])[..|p.trace|];
  }

  // ---------------------------------------------------------------------
  // Exit notice

  /** The line `printf("%s: exit(%d)\n", name, status)` prints. */
  function Notice(name: string, status: int): string {
    name + ": exit(" + IntToString(status) + ")\n"
  }

  /** Index of the last `c` in `s`. */
  function LastIndex(s: string, c: char): (r: Option<nat>)
    ensures r.Some? ==> r.value < |s| && s[r.value] == c
    ensures r.Some? ==> forall i :: r.value < i < |s| ==> s[i] != c
    ensures r.None? ==> forall i :: 0 <= i < |s| ==> s[i] != c
    decreases |s|
  {
    if s == [] then None
    else if s[|s| - 1] == c then Some(|s| - 1)
    else LastIndex(s[..|s| - 1], c)
  }

  const ExitTag: string := ": exit("

  /**
    Reads a notice line back: the process name and the status, or `None` if
    the line is not shaped like a notice. Parses from the right, so a name
    containing `": exit("` is still recovered.
   */
  function ParseNotice(line: string): Option<(string, int)> {
    if |line| < 2 || line[|line| - 2..] != ")\n" then None
    else
      var body := line[..|line| - 2];
      match LastIndex(body, '(')
      case None => None
      case Some(j) =>
        var head := body[..j + 1];
        var num := body[j + 1..];
        if |head| >= |ExitTag| && head[|head| - |ExitTag|..] == ExitTag && IsIntString(num)
        then Some((head[..|head| - |ExitTag|], ParseInt(num)))
        else None
  }

  /** A reader of the console recovers the name and the exact status from the notice. */
  lemma NoticeRoundTrip(name: string, status: int)
    ensures ParseNotice(Notice(name, status)) == Some((name, status))
  {
    var num := IntToString(status);
    var line := Notice(name, status);
    var body := line[..|line| - 2];
    assert line[|line| - 2..] == ")\n";
    assert body == (name + ": exit") + ['('] + num;
    assert forall i :: 0 <= i < |num| ==> num[i] != '(' by {
      forall i | 0 <= i < |num| ensures num[i] != '(' {
        if !IsNatString(num) { assert num[i] == '-' || num[1..][i - 1] == num[i]; }
      }
    }
    var j := |name| + 6;
    assert body[j] == '(';
    assert forall i :: j < i < |body| ==> body[i] == num[i - j - 1];
    assert LastIndex(body, '(') == Some(j);
    var head := body[..j + 1];
    assert head == name + ExitTag;
    assert body[j + 1..] == num;
    assert head[..|head| - |ExitTag|] == name;
    IntRoundTrip(status);
  }

  /**
    The termination path of `exit (status)`: the status is recorded, the
    notice is printed, and the process never returns to user mode.
   */
  function Exit(p: Proc, status: int): (o: Outcome)
    ensures o.Terminated?
    ensures o.p.exitStatus == Some(status)
    ensures o.p.consoleOut == p.consoleOut + Notice(p.name, status)
    ensures o.p == p.(exitStatus := Some(status), consoleOut := o.p.consoleOut)
  {
    Terminated(p.(exitStatus := Some(status), consoleOut := p.consoleOut + Notice(p.name, status)))
  }

  /**
    `exit` adds exactly one line to the console, after what was there, and
    the process name and the exact status can be read back from it.
   */
  lemma ExitNotice(p: Proc, status: int)
    ensures var out := Exit(p, status).p.consoleOut;
      && |p.consoleOut| < |out|
      && out[..|p.consoleOut|] == p.consoleOut
      && ParseNotice(out[|p.consoleOut|..]) == Some((p.name, status))
  {
    var out := Exit(p, status).p.consoleOut;
    assert out[|p.consoleOut|..] == Notice(p.name, status);
    NoticeRoundTrip(p.name, status);
  }

  // ---------------------------------------------------------------------
  // Lock discipline

  predicate IsFileIo(e: Event) {
    e.FsRead? || e.FsWrite?
  }

  predicate LockFree(e: Event) {
    !e.Acquire? && !e.Release? && !IsFileIo(e)
  }

  /**
    Every file-system read or write in `t` sits alone between an acquire and a
    release of `file_lock`, and the lock is touched nowhere else.
   */
  predicate Serialized(t: seq<Event>)
    decreases |t|
  {
    if t == [] then true
    else if LockFree(t[0]) then Serialized(t[1..])
    else |t| >= 3 && t[0].Acquire? && IsFileIo(t[1]) && t[2].Release? && Serialized(t[3..])
  }

  /** Two serialized traces run one after the other form a serialized trace. */
  lemma {:induction false} SerializedAppend(a: seq<Event>, b: seq<Event>)
    requires Serialized(a) && Serialized(b)
    ensures Serialized(a + b)
    decreases |a|
  {
    if a == [] {
      assert a + b == b;
    } else {
      assert (a + b)[0] == a[0];
      if LockFree(a[0]) {
        assert (a + b)[1..] == a[1..] + b;
        SerializedAppend(a[1..], b);
      } else {
        assert (a + b)[3..] == a[3..] + b;
        SerializedAppend(a[3..], b);
      }
    }
  }

  /** The stack addresses read, in order. */
  function Loads(t: seq<Event>): seq<Word>
    decreases |t|
  {
    if t == [] then []
    else Loads(t[..|t| - 1]) + (if t[|t| - 1].Load? then [t[|t| - 1].addr] else [])
  }

  lemma {:induction false} LoadsAppend(a: seq<Event>, b: seq<Event>)
    ensures Loads(a + b) == Loads(a) + Loads(b)
    decreases |b|
  {
    if b == [] {
      assert a + b == a;
    } else {
      assert (a + b)[..|a + b| - 1] == a + b[..|b| - 1];
      assert (a + b)[|a + b| - 1] == b[|b| - 1];
      LoadsAppend(a, b[..|b| - 1]);
    }
  }
}
