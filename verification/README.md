# Pintos system-call layer (`src/userprog/syscall.c`)

A Dafny model of the trap boundary of a Pintos-style kernel: the handler
behind interrupt `0x30`, which reads a request code and its argument words
off the user stack, checks addresses, dispatches to a service routine and
stores the result in `eax`.

One trap is one call of the pure function `Dispatch.Step(p, env, esp, eax)`.
It returns one of four outcomes:

- `Continue(p', eax')`: the trap returns to user mode;
- `Terminated(p')`: `exit` ran, either on request or because a check failed;
- `Halted(p')`: `halt` powered the machine off;
- `Blocked(p')`: a console `read` is still waiting for its terminating zero
  byte.

The process state `Process.Proc` holds:

- the name;
- byte-addressed user memory (a map; an unmapped byte reads as 0; words are
  little-endian);
- the descriptor table `fds` of `FdCapacity` optional file ids;
- the exit status;
- the console input still to be typed and the console output printed so far;
- whether `file_lock` is held;
- a trace of `Event`s.

The trace records what the layer did:

- every stack word it read (`Load`);
- every acquire and release of `file_lock`;
- every call into the file system;
- `process_execute` and `process_wait`.

What the collaborators outside the file answer comes in as an
`Services.Env` record:

- the file system's verdicts and counts;
- the bytes `file_read` delivers;
- the child's pid and load flag;
- `process_wait`'s status;
- the slot `process_add_file` chooses.

Modules follow the file's structure:

| module | what it holds |
|---|---|
| `Words` | 32-bit words and the signed/unsigned conversions the C code makes implicitly |
| `Memory` | byte memory, word loads, byte stores |
| `Decimal` | `%d` printing and parsing |
| `Process` | the state, `exit`, the exit notice, the lock-discipline grammar |
| `Validate` | `check_address` and `get_argument` |
| `Services` | `create` … `close` |
| `Dispatch` | `syscall_handler` |
| `Properties` | what one trap does, stated as a table (arity, checked pointer, `eax`) and proved for every request code |
| `TrapProperties` | which service each trap runs, on which stack words, and where its answer goes |
| `TableProperties` | how the descriptor services fit together |

The quirks of the code are kept:

- The request code is read before `esp` is checked. `StepBadStack` shows the
  `Load(esp)` in the trace of a trap that terminates on a bad `esp`.
- `exec`'s command-line pointer is never checked.
- Console `read` ignores `size` and stops only at a zero byte.
- `close` hands `NULL` to `file_close` on an empty slot.
- An unknown request code does nothing.
- `read`, `write`, `seek`, `tell` and `close` index `fd_arr` without a bounds
  check. `Step` therefore requires that the descriptor word these requests
  would index with lies in `0 .. FdCapacity-1` (`Dispatch.FdDemand`). The
  requirement applies only on the paths that actually reach the index.

Further behaviour of the code that the model keeps:

- `seek` and `tell` run outside `file_lock`. Only `file_read` and
  `file_write` are bracketed by it.
- `close` changes the descriptor table: it empties the slot.
- The descriptor services other than `filesize` index the table directly.
  They do not go through a lookup that answers "absent" out of range.

## Model

| member | source | states |
|---|---|---|
| Dispatch.Step | src/userprog/syscall.c:28-123 | one trap: whatever the request, the process stays valid (table size kept, `file_lock` not held) under the same name, and the trace only grows, its first new event being the read of the code word at `esp` |
| Validate.CheckAddress | src/userprog/syscall.c:125-132 | execution continues exactly when `0x08048000 <= a < 0xc0000000`; otherwise the process is terminated as by `exit(-1)`: status -1, the notice `"<name>: exit(-1)\n"` appended to the console, and nothing else changed |
| Validate.CheckAddressBoundaries | src/userprog/syscall.c:128 | null, `0x08047fff` and `0xc0000000` are rejected; `0x08048000` and `0xbfffffff` are accepted |
| Validate.GetArgument | src/userprog/syscall.c:134-144 | all argument word addresses valid iff marshalling succeeds, and then the result is the `count` words at `esp+4`, …, `esp+4*count` in order, after exactly those reads; otherwise termination with -1 and the `exit(-1)` notice appended to the console at the first bad word `k`, with words `1..k-1` valid and read and nothing later read |
| Process.Exit | src/userprog/syscall.c:151-157 | the process terminates and never returns; its exit status becomes `status`; the console gains exactly the line `"<name>: exit(<status>)\n"` with the status in `%d` form after its old output; nothing else changes |
| Process.ExitNotice | src/userprog/syscall.c:155 | `exit` appends one non-empty notice after the existing console output, from which the process name and the exact status are read back |
| Process.NoticeRoundTrip | src/userprog/syscall.c:155 | the line `"<name>: exit(<status>)\n"` parses back to the same name and status, for every name and every integer status |
| Decimal.IntRoundTrip | src/userprog/syscall.c:155 | the `%d` rendering of an integer is a well-formed decimal that parses back to the same integer |
| Decimal.NatRoundTrip | src/userprog/syscall.c:155 | the decimal digits of a natural number parse back to that number |
| Services.Create | src/userprog/syscall.c:159-162 | returns 1 exactly when the file system created the file, 0 otherwise; records the call with its name pointer and size and changes nothing else |
| Services.Remove | src/userprog/syscall.c:164-167 | returns 1 exactly when the file system removed the file, 0 otherwise; records the call and changes nothing else |
| Services.Exec | src/userprog/syscall.c:168-179 | after the load hand-off, returns -1 when the child's load flag is false and the child's pid when it is true; the command line is passed on unread |
| Services.WaitFor | src/userprog/syscall.c:180-183 | returns what `process_wait` reports for the tid and records the call |
| Services.Open | src/userprog/syscall.c:184-193 | -1 and an unchanged table when the file system finds nothing; otherwise the descriptor returned is bound to the file found and every other slot is unchanged; the process stays valid |
| Services.ProcessGetFile | src/userprog/syscall.c:197 | the assumed stand-in for `process_get_file` (which is not part of this model) as `filesize` calls it: the slot's content inside the table, absent outside it |
| Services.Filesize | src/userprog/syscall.c:195-206 | -1 and no state change for an absent file; otherwise `file_length` of that file, with only that call recorded |
| Services.FirstZero | src/userprog/syscall.c:217 | the index of the first zero byte: the byte there is zero and every earlier byte is not; absent exactly when no byte is zero |
| Services.ReadConsole | src/userprog/syscall.c:214-219 | still waiting exactly when the typed input holds no zero byte; otherwise returns the count `k` of bytes before the first zero, stores exactly those bytes at `buf…`, consumes them and the zero, and changes nothing else; `size` plays no part |
| Services.Read | src/userprog/syscall.c:208-230 | descriptor 0 is the console read; an empty slot gives -1 and no change; a bound slot runs exactly `acquire, file_read, release` with the lock free afterwards, stores the bytes read at the buffer and returns their count |
| Services.Write | src/userprog/syscall.c:233-254 | descriptor 1 appends the `size` bytes at the buffer to the console and returns `size` (as a 32-bit word); an empty slot gives -1 and no change; a bound slot runs exactly `acquire, file_write, release`, returns `file_write`'s count and changes nothing else |
| Services.Seek | src/userprog/syscall.c:256-267 | an empty slot is a no-op; a bound slot seeks its file to `0 + position`, and nothing else changes |
| Services.Tell | src/userprog/syscall.c:269-278 | an empty slot gives 0 and no change; a bound slot gives `file_tell`'s answer for its file |
| Services.Close | src/userprog/syscall.c:280-285 | `file_close` is called on whatever the slot holds, empty included; the slot is then empty, every other slot is unchanged and the process stays valid |
| Memory.StoreBytesReadBack | src/userprog/syscall.c:218 | after storing a byte sequence at `a`, the byte at `a+k` is the sequence's `k`-th byte |
| Memory.StoreBytesFrame | src/userprog/syscall.c:218 | storing a byte sequence at `a` leaves every byte outside `a .. a+len-1` unchanged |
| Memory.StoreThenRead | src/userprog/syscall.c:218 | reading back the stored range gives the stored bytes |
| Properties.StepBadStack | src/userprog/syscall.c:31-35 | with a bad `esp` the trap terminates with -1 after reading the code word; the console gains exactly the `exit(-1)` notice, and nothing else but the status and that read changes |
| Properties.StepMarshals | src/userprog/syscall.c:36-119 | the trap reads exactly `esp, esp+4, …, esp+4*Arity(code)` when those are valid (arity: halt 0; exit, remove, open, filesize, tell, close, exec, wait 1; create, seek 2; read, write 3; unknown 0); otherwise it terminates with -1, printing the `exit(-1)` notice, at the first bad argument word, reading none after it |
| Properties.StepChecksPointer | src/userprog/syscall.c:52-111 | with the argument words valid, a request other than exit/halt terminates exactly when it has a checked pointer (argument 1 for create, remove, open; argument 2 for read, write; none for exec) and that pointer is bad, with -1 and the `exit(-1)` notice, before the service runs |
| Properties.StepFrame | src/userprog/syscall.c:28-123 | every trap keeps the process valid and named, only extends the trace, brackets each file read/write alone by `file_lock` and leaves it free; only read changes memory and console input, only open and close the table, only exit changes the status, only write and exit print; `eax` is kept for requests that store no result |
| Properties.StepEax | src/userprog/syscall.c:36-119 | the incoming `eax` affects nothing but the returned `eax`: the new state and the kind of outcome are the same for any two incoming values, a trap that does not return to user mode ends identically, for create, remove, open, filesize, read, write, tell, exec and wait the returned value is independent of it, for seek, close and unknown codes it is returned unchanged |
| Properties.StepUnknown | src/userprog/syscall.c:36-119 | an unknown request code continues with `eax` unchanged after only reading the code word |
| Properties.StepHalt | src/userprog/syscall.c:38-41 | `halt` powers off after reading only the code word |
| Properties.StepExit | src/userprog/syscall.c:42-47 | `exit` with a valid argument terminates with that word read as a signed `int` as status, appends exactly `"<name>: exit(<status>)\n"` (status in `%d` form) to the console, from which name and status parse back, and reads exactly the code and argument words |
| Properties.StepStructure | src/userprog/syscall.c:28-123 | every trap with a valid `esp` marshals `Arity(code)` words (a bad one terminates), then checks the request's pointer argument (a bad one terminates), then runs a service that reads no stack word and touches `file_lock` only around one file read or write; only exit terminates, only halt halts, only read can wait |
| TrapProperties.TrapCreate | src/userprog/syscall.c:48-54 | a `create` trap with valid words checks word 1 and then stores `create (word 1, word 2)`'s answer in `eax` |
| TrapProperties.TrapRemove | src/userprog/syscall.c:55-61 | a `remove` trap checks word 1 and then stores `remove (word 1)`'s answer in `eax` |
| TrapProperties.TrapOpen | src/userprog/syscall.c:62-68 | an `open` trap checks word 1 and then stores `open (word 1)`'s descriptor or -1 in `eax` |
| TrapProperties.TrapFilesize | src/userprog/syscall.c:69-74 | a `filesize` trap stores `filesize (word 1)` in `eax`, the word read as a signed descriptor |
| TrapProperties.TrapRead | src/userprog/syscall.c:75-81 | a `read` trap checks word 2, then runs `read (word 1, word 2, word 3)` and stores the count or -1 in `eax`, or stays blocked on the console; the descriptor it indexes with lies in the table |
| TrapProperties.TrapWrite | src/userprog/syscall.c:82-88 | a `write` trap checks word 2, then runs `write (word 1, word 2, word 3)` and stores the count or -1 in `eax` |
| TrapProperties.TrapSeek | src/userprog/syscall.c:89-94 | a `seek` trap runs `seek (word 1, word 2)` and returns with `eax` unchanged |
| TrapProperties.TrapTell | src/userprog/syscall.c:95-100 | a `tell` trap stores `tell (word 1)` in `eax` |
| TrapProperties.TrapClose | src/userprog/syscall.c:101-106 | a `close` trap runs `close (word 1)` and returns with `eax` unchanged |
| TrapProperties.TrapExec | src/userprog/syscall.c:107-112 | an `exec` trap hands word 1 to `process_execute` without checking it, whatever address it is, and puts -1 as `0xffffffff` in `eax` when the child did not load, else the child's pid |
| TrapProperties.TrapWait | src/userprog/syscall.c:113-118 | a `wait` trap stores `wait (word 1)`'s status in `eax`, the word read as a signed tid |
| TrapProperties.TrapEmptySlot | src/userprog/syscall.c:195-278 | a trap naming an empty non-console slot puts -1 as `0xffffffff` in `eax` for filesize, read and write, 0 for tell, keeps `eax` for seek, and records nothing but its stack reads |
| TrapProperties.TrapConsoleWrite | src/userprog/syscall.c:239-245 | a `write` trap on descriptor 1 appends the `size` bytes at `buf` to the console, returns `size` in `eax` and changes nothing else |
| TableProperties.CloseThenAbsent | src/userprog/syscall.c:195-285 | after `close(fd)` the slot is absent for every service: filesize, off-console read and write give -1, tell 0, seek does nothing, none changes the state |
| TableProperties.CloseEmptySlot | src/userprog/syscall.c:280-285 | closing an empty slot calls `file_close(NULL)` and leaves the table as it was; closing twice leaves the table as closing once |
| TableProperties.OpenThenBound | src/userprog/syscall.c:184-285 | the descriptor a successful open returns is in the table, and later filesize, tell, read, write and close act on the file opened |
| TableProperties.ConsoleWriteEmpty | src/userprog/syscall.c:239-245 | writing 0 bytes to the console prints nothing and returns 0 |
| TableProperties.ConsoleReadContents | src/userprog/syscall.c:214-219 | a console read returning `k` leaves at `buf..buf+k-1` exactly the `k` zero-free bytes typed before the first zero and every other byte of memory unchanged, whatever `size` is |

## Left out

- `syscall_init` (registration of the interrupt handler and `lock_init`): kernel plumbing with no decision in it.
- `halt`: `shutdown_power_off` is an opaque terminal outcome `Halted`.
- The `malloc`/`free` of the argument buffer: the arguments are a Dafny sequence.
- The file system, `process_execute`, `get_child_process`, `sema_down`, `process_wait` and `process_add_file`: they are not part of this model. Their answers are inputs in `Env`. The file-system calls, `process_execute` and `process_wait` are recorded in the trace; `get_child_process`, `sema_down` and `process_add_file` leave no trace event and appear only through their answers in `Env` (the load flag and the chosen slot).
- `process_add_file`'s allocation policy: the slot it binds is an input. The only constraint on it is that it lies in the table when a file was opened.
- `process_get_file`, used by `filesize`, is not part of this model. It is taken to return the slot's content, and absent outside the table.
- `FdCapacity` is 128: the size of `fd_arr` is declared in a header that is not part of this model.
- Request numbers: the standard Pintos values (halt 0 … close 12) from a header that is not part of this model.
- Blocking: a console read whose terminating zero has not been typed yet is the outcome `Blocked`, with none of its partial effects; `exec` and `wait` blocking is folded into their answers in `Env`.
- Concurrency around `file_lock`: only a held flag and the acquire/release events in the trace.
- Page faults: an unmapped user byte reads as 0; only the start address of each argument word is checked, as in the code, and the byte extents of `read`/`write` buffers are not checked, as in the code.
- Devices: `input_getc` is the sequence of typed bytes and `putbuf` appends to an output string.
- Dispatch.Step: requires the descriptor used by `read`, `write`, `seek`, `tell` and `close` to lie in the table, because the code indexes `fd_arr` unchecked and out-of-range behaviour is undefined.
- Properties.StepFrame: for `close` the table does change (the slot is emptied at :284); the frame excludes `open` and `close` from "table unchanged".
- Services.Read: what `file_read` stores is the `fileBytes` input, not tied to `size`, since how many bytes the file system delivers is its own business.
