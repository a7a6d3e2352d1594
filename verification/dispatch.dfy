/**
  `syscall_handler`: read the request code at `esp`, check `esp`, then per
  request marshal the arguments, check the pointer arguments the handler
  checks, run the service and, for some requests, store its result in `eax`.
 */
module Dispatch {
  import opened Wrappers
  import opened Words
  import opened Memory
  import opened Process
  import opened Validate
  import opened Services

  // Request codes of Pintos's lib/syscall-nr.h.
  const SYS_HALT: Word := 0
  const SYS_EXIT: Word := 1
  const SYS_EXEC: Word := 2
  const SYS_WAIT: Word := 3
  const SYS_CREATE: Word := 4
  const SYS_REMOVE: Word := 5
  const SYS_OPEN: Word := 6
  const SYS_FILESIZE: Word := 7
  const SYS_READ: Word := 8
  const SYS_WRITE: Word := 9
  const SYS_SEEK: Word := 10
  const SYS_TELL: Word := 11
  const SYS_CLOSE: Word := 12

  /** Argument word `i` (1-based) as stored on the user stack. */
  function ArgWord(mem: Mem, esp: Word, i: nat): Word {
    LoadWord(mem, ArgAddr(esp, i))
  }

  /**
    The descriptor a request would use to index `fd_arr` lies in the table
    whenever the handler gets as far as indexing: `read` off the console,
    `write` off the console, `seek`, `tell` and `close`. The C code does not
    check this; an index outside the table is undefined behaviour.
   */
  predicate FdDemand(code: Word, mem: Mem, esp: Word) {
    var fd := Signed(ArgWord(mem, esp, 1));
    if code == SYS_READ then
      ArgsValid(esp, 3) && IsUserAddress(ArgWord(mem, esp, 2)) && fd != 0 ==> InTable(fd)
    else if code == SYS_WRITE then
      ArgsValid(esp, 3) && IsUserAddress(ArgWord(mem, esp, 2)) && fd != 1 ==> InTable(fd)
    else if code == SYS_SEEK then
      ArgsValid(esp, 2) ==> InTable(fd)
    else if code == SYS_TELL || code == SYS_CLOSE then
      ArgsValid(esp, 1) ==> InTable(fd)
    else true
  }

  predicate FdIndexOk(mem: Mem, esp: Word) {
    IsUserAddress(esp) ==> FdDemand(LoadWord(mem, esp), mem, esp)
  }

  /** Back to user mode with a service's return value in `eax`. */
  function Returning(r: Reply): Outcome {
    Continue(r.p, ToWord(r.ret))
  }

  function ExitCall(p: Proc, esp: Word): (o: Outcome)
    requires Valid(p)
    ensures Valid(o.p) && o.p.name == p.name && Extends(p, o.p)
  {
    match GetArgument(p, esp, 1)
    case Faulted(o) => o
    case Marshalled(q, a) => Exit(q, Signed(a[0]))
  }

  function ExecCall(p: Proc, env: Env, esp: Word): (o: Outcome)
    requires Valid(p)
    ensures Valid(o.p) && o.p.name == p.name && Extends(p, o.p)
  {
    match GetArgument(p, esp, 1)
    case Faulted(o) => o
    case Marshalled(q, a) => Returning(Exec(q, env, a[0]))
  }

  function WaitCall(p: Proc, env: Env, esp: Word): (o: Outcome)
    requires Valid(p)
    ensures Valid(o.p) && o.p.name == p.name && Extends(p, o.p)
  {
    match GetArgument(p, esp, 1)
    case Faulted(o) => o
    case Marshalled(q, a) => Returning(WaitFor(q, env, Signed(a[0])))
  }

  function CreateCall(p: Proc, env: Env, esp: Word): (o: Outcome)
    requires Valid(p)
    ensures Valid(o.p) && o.p.name == p.name && Extends(p, o.p)
  {
    match GetArgument(p, esp, 2)
    case Faulted(o) => o
    case Marshalled(q, a) =>
      match CheckAddress(q, a[0])
      case Some(o) => o
      case None => Returning(Create(q, env, a[0], a[1]))
  }

  function RemoveCall(p: Proc, env: Env, esp: Word): (o: Outcome)
    requires Valid(p)
    ensures Valid(o.p) && o.p.name == p.name && Extends(p, o.p)
  {
    match GetArgument(p, esp, 1)
    case Faulted(o) => o
    case Marshalled(q, a) =>
      match CheckAddress(q, a[0])
      case Some(o) => o
      case None => Returning(Remove(q, env, a[0]))
  }

  function OpenCall(p: Proc, env: Env, esp: Word): (o: Outcome)
    requires Valid(p) && EnvFits(env)
    ensures Valid(o.p) && o.p.name == p.name && Extends(p, o.p)
  {
    match GetArgument(p, esp, 1)
    case Faulted(o) => o
    case Marshalled(q, a) =>
      match CheckAddress(q, a[0])
      case Some(o) => o
      case None => Returning(Open(q, env, a[0]))
  }

  function FilesizeCall(p: Proc, env: Env, esp: Word): (o: Outcome)
    requires Valid(p)
    ensures Valid(o.p) && o.p.name == p.name && Extends(p, o.p)
  {
    match GetArgument(p, esp, 1)
    case Faulted(o) => o
    case Marshalled(q, a) => Returning(Filesize(q, env, Signed(a[0])))
  }

  function ReadCall(p: Proc, env: Env, esp: Word): (o: Outcome)
    requires Valid(p) && FdDemand(SYS_READ, p.mem, esp)
    ensures Valid(o.p) && o.p.name == p.name && Extends(p, o.p)
  {
    match GetArgument(p, esp, 3)
    case Faulted(o) => o
    case Marshalled(q, a) =>
      match CheckAddress(q, a[1])
      case Some(o) => o
      case None =>
        match Read(q, env, Signed(a[0]), a[1], a[2])
        case None => Blocked(q)
        case Some(r) => Returning(r)
  }

  function WriteCall(p: Proc, env: Env, esp: Word): (o: Outcome)
    requires Valid(p) && FdDemand(SYS_WRITE, p.mem, esp)
    ensures Valid(o.p) && o.p.name == p.name && Extends(p, o.p)
  {
    match GetArgument(p, esp, 3)
    case Faulted(o) => o
    case Marshalled(q, a) =>
      match CheckAddress(q, a[1])
      case Some(o) => o
      case None => Returning(Write(q, env, Signed(a[0]), a[1], a[2]))
  }

  function SeekCall(p: Proc, esp: Word, eax: Word): (o: Outcome)
    requires Valid(p) && FdDemand(SYS_SEEK, p.mem, esp)
    ensures Valid(o.p) && o.p.name == p.name && Extends(p, o.p)
  {
    match GetArgument(p, esp, 2)
    case Faulted(o) => o
    case Marshalled(q, a) => Continue(Seek(q, Signed(a[0]), a[1]), eax)
  }

  function TellCall(p: Proc, env: Env, esp: Word): (o: Outcome)
    requires Valid(p) && FdDemand(SYS_TELL, p.mem, esp)
    ensures Valid(o.p) && o.p.name == p.name && Extends(p, o.p)
  {
    match GetArgument(p, esp, 1)
    case Faulted(o) => o
    case Marshalled(q, a) => Returning(Tell(q, env, Signed(a[0])))
  }

  function CloseCall(p: Proc, esp: Word, eax: Word): (o: Outcome)
    requires Valid(p) && FdDemand(SYS_CLOSE, p.mem, esp)
    ensures Valid(o.p) && o.p.name == p.name && Extends(p, o.p)
  {
    match GetArgument(p, esp, 1)
    case Faulted(o) => o
    case Marshalled(q, a) => Continue(Close(q, Signed(a[0])), eax)
  }

  /**
    One trap with user stack pointer `esp` and incoming `eax`. The request
    code is read before `esp` is checked; an unknown code does nothing.
   */
  function Step(p: Proc, env: Env, esp: Word, eax: Word): (o: Outcome)
    requires Valid(p) && EnvFits(env) && FdIndexOk(p.mem, esp)
    ensures Valid(o.p)
    ensures o.p.name == p.name
    ensures Extends(p, o.p) && |p.trace| < |o.p.trace|
    ensures o.p.trace[|p.trace|] == Load(esp)
  {
    var code := LoadWord(p.mem, esp);
    var p1 := Log(p, Load(esp));
    var o := match CheckAddress(p1, esp)
      case Some(o) => o
      case None => Switch(p1, env, esp, eax, code);
    LoggedFirst(p, Load(esp), o.p);
    o
  }

  /** The `switch` on the request code, entered in state `p` once `esp` passed its check. */
  function Switch(p: Proc, env: Env, esp: Word, eax: Word, code: Word): (o: Outcome)
    requires Valid(p) && EnvFits(env) && FdDemand(code, p.mem, esp)
    ensures Valid(o.p) && o.p.name == p.name && Extends(p, o.p)
  {
    if code == SYS_HALT then Halted(p)
    else if code == SYS_EXIT then ExitCall(p, esp)
    else if code == SYS_CREATE then CreateCall(p, env, esp)
    else if code == SYS_REMOVE then RemoveCall(p, env, esp)
    else if code == SYS_OPEN then OpenCall(p, env, esp)
    else if code == SYS_FILESIZE then FilesizeCall(p, env, esp)
    else if code == SYS_READ then ReadCall(p, env, esp)
    else if code == SYS_WRITE then WriteCall(p, env, esp)
    else if code == SYS_SEEK then SeekCall(p, esp, eax)
    else if code == SYS_TELL then TellCall(p, env, esp)
    else if code == SYS_CLOSE then CloseCall(p, esp, eax)
    else if code == SYS_EXEC then ExecCall(p, env, esp)
    else if code == SYS_WAIT then WaitCall(p, env, esp)
    else Continue(p, eax)
  }
}
