/**
  The address validator `check_address` and the argument marshaller
  `get_argument` of `syscall.c`.
 */
module Validate {
  import opened Wrappers
  import opened Words
  import opened Memory
  import opened Process

  /** Start of the user code segment. */
  const USER_LOW: Word := 0x0804_8000
  /** `PHYS_BASE`, the first kernel address. */
  const USER_HIGH: Word := 0xc000_0000

  predicate IsUserAddress(a: Word) {
    USER_LOW <= a < USER_HIGH
  }

  /**
    `check_address (addr)`: `None` lets the caller continue; otherwise the
    process has been terminated with status -1 and nothing else changed but
    the exit status and the console.
   */
  function CheckAddress(p: Proc, a: Word): (r: Option<Outcome>)
    ensures r.None? <==> 0x0804_8000 <= a < 0xc000_0000
    ensures r.Some? ==> r.value.Terminated? && r.value.p.exitStatus == Some(-1)
    ensures r.Some? ==> r.value.p == p.(exitStatus := Some(-1), consoleOut := r.value.p.consoleOut)
    ensures r.Some? ==> r.value.p.consoleOut == p.consoleOut + Notice(p.name, -1)
  {
    if a < USER_LOW || a >= USER_HIGH then Some(Exit(p, -1)) else None
  }

  /** Null and `PHYS_BASE` are rejected; the two ends of the user range are accepted. */
  lemma CheckAddressBoundaries(p: Proc)
    ensures CheckAddress(p, 0).Some?
    ensures CheckAddress(p, 0xc000_0000).Some?
    ensures CheckAddress(p, 0x0804_7fff).Some?
    ensures CheckAddress(p, 0x0804_8000).None?
    ensures CheckAddress(p, 0xbfff_ffff).None?
  {
  }

  /** Address of argument word `i` (1-based) above the stack pointer. */
  function ArgAddr(esp: Word, i: nat): Word {
    AddrAdd(esp, 4 * i)
  }

  /** Argument words `1 .. n` all lie in user space. */
  predicate ArgsValid(esp: Word, n: nat) {
    forall i :: 1 <= i <= n ==> IsUserAddress(ArgAddr(esp, i))
  }

  /** The reads of argument words `1 .. n`, in order. */
  function ArgLoads(esp: Word, n: nat): seq<Event> {
    seq(n, k requires 0 <= k < n => Load(ArgAddr(esp, k + 1)))
  }

  /** Either the argument words, or the termination caused by a bad word address. */
  datatype Marshal = Marshalled(p: Proc, args: seq<Word>) | Faulted(o: Outcome)

  /**
    `get_argument (esp, arg, count)`: for `i = 1 .. count`, check the address
    `esp + 4i`, then read the word there.
   */
  function GetArgument(p: Proc, esp: Word, count: nat): (r: Marshal)
    ensures r.Marshalled? <==> ArgsValid(esp, count)
    ensures r.Marshalled? ==>
      && |r.args| == count
      && (forall k :: 0 <= k < count ==> r.args[k] == LoadWord(p.mem, ArgAddr(esp, k + 1)))
      && r.p == p.(trace := p.trace + ArgLoads(esp, count))
    ensures r.Faulted? ==>
      && r.o.Terminated?
      && r.o.p == p.(trace := r.o.p.trace, exitStatus := Some(-1), consoleOut := r.o.p.consoleOut)
      && r.o.p.consoleOut == p.consoleOut + Notice(p.name, -1)
      && exists k ::
           && 1 <= k <= count
           && !IsUserAddress(ArgAddr(esp, k))
           && ArgsValid(esp, k - 1)
           && r.o.p.trace == p.trace + ArgLoads(esp, k - 1)
    decreases count
  {
    if count == 0 then Marshalled(p, [])
    else
      match GetArgument(p, esp, count - 1)
      case Faulted(o) => Faulted(o)
      case Marshalled(q, args) =>
        var a := ArgAddr(esp, count);
        match CheckAddress(q, a)
        case Some(o) => Faulted(o)
        case None =>
          assert ArgLoads(esp, count) == ArgLoads(esp, count - 1) + [Load(a)];
          Marshalled(Log(q, Load(a)), args + [LoadWord(q.mem, a)])
  }
}
