# File descriptors and open files of an OS/161 kernel

This project models the file system calls of a teaching kernel
(`kern/syscall/file_syscalls.c`): `sys_open`, `sys_read`, `sys_write`,
`sys_close` and `sys_meld`. Each works on one per-process descriptor table of
`OPEN_MAX` slots. A slot is empty or points to a shared open-file record. A
record holds an access mode, a seek offset, a reference count and an offset
lock. The Dafny proves what each call does to that state, result code and
`*retval` on every path.

Layout:

- `kernel.dfy` (module `Kernel`): the state as a value (`State`: slots, records,
  the next record id) and the access-mode flags. `Valid` is the table's
  ownership invariant. Every occupied slot names a live record. Every live
  record has a positive count of at least the number of slots that hold it.
  The module also holds the state changes made by the collaborators and the
  lemmas that these keep `Valid`.
- `filetable.dfy` (module `FileTables`): the class `FileTable` with a slot
  `array`, a record `map`, a ghost set `locked` of records whose offset lock
  is held, and a ghost log of `filetable_put` calls. It also holds the
  collaborators whose bodies are not part of this model, each with the least
  contract `file_syscalls.c` relies on: `filetable_get`, `_put`, `_place`,
  `_placeat`, `_okfd`, `openfile_open`, `_decref`, `lock_acquire`,
  `lock_release`, `copyinstr`, and `VOP_READ`/`VOP_WRITE`.
- `syscall_spec.dfy` (module `SyscallSpec`): one function per call, giving its
  outcome from the old state, the arguments and the collaborators' outcomes.
- `file_syscalls.dfy` (module `FileSyscalls`): the calls as step-by-step
  methods on the table. Each is proved equal to its function and to keep
  `Valid`. Read and write are also proved to leave no offset lock held.
- `syscall_props.dfy` (module `SyscallProps`): properties of those functions.

The choices the collaborators make are explicit parameters. These are
whether a step fails and with which error, the slot `filetable_place` picks,
the answer of `filetable_okfd`, and the residual count of a transfer. An
`...Allowed` predicate restricts each one to what the collaborator can return.
For example, `filetable_place` picks only an empty in-range slot, and
`filetable_okfd` accepts every occupied slot.

The model follows the code as written, also where it departs from what the
file's own comments say:

- The check at line 31 is commented "invalid flag detected!", but it tests
  the constant `allflags`, which is nonzero. So it never rejects, and no
  flag is validated.
- `sys_open` does not release the new record when `filetable_place` fails.
  The record stays live with one reference that no slot holds.
- The header comment at line 189 says `sys_meld` combines "the content of two
  files word by word" into a new file. No transfer is made: the call opens,
  places and closes three files. Each early return leaves live every record
  opened so far, and keeps every slot placed so far.
- `sys_meld` opens all three files with the caller's `flags`, so the inputs
  and the output have the same access mode.
- The comment at line 247 says the final `*retval` is the number of bytes
  written to the third file. The code leaves the third fd in `*retval`.
- `sys_close` returns 0 for an empty slot that `filetable_okfd` accepts. Once a
  slot has been emptied, a second close releases nothing.
- A record's access mode is the two access-mode bits of its flags. The
  unused value 3 is not turned away: both the read check (line 82) and the
  write check (line 130) let it pass.

## Model

| member | source | states |
|---|---|---|
| Kernel.RefsSet | kern/syscall/file_syscalls.c:175 | overwriting one slot changes the slot count of the old occupant and of the new value by exactly one each, and nothing else |
| Kernel.RefsZero | kern/syscall/file_syscalls.c:176-177 | a record's slot count is zero exactly when no slot holds it |
| Kernel.NewFileKeepsValid | kern/syscall/file_syscalls.c:42-45 | a record made by openfile_open keeps the ownership invariant and no slot holds it yet |
| Kernel.SetSlotKeepsValid | kern/syscall/file_syscalls.c:46-49 | storing a record that has a reference unit no slot accounts for keeps the invariant, and the displaced occupant then has such a spare unit |
| Kernel.DropRefKeepsValid | kern/syscall/file_syscalls.c:177 | dropping a reference unit no slot accounts for keeps the invariant, including when the record is destroyed |
| FileTables.FileTable.OkFd | kern/syscall/file_syscalls.c:171-173 | filetable_okfd accepts only an in-range fd and accepts every occupied slot |
| FileTables.FileTable.Get | kern/syscall/file_syscalls.c:77-80 | filetable_get returns its error, or 0 with the live record held in slot `fd` |
| FileTables.FileTable.Put | kern/syscall/file_syscalls.c:99 | filetable_put is recorded once, with its fd |
| FileTables.FileTable.Place | kern/syscall/file_syscalls.c:46-49 | filetable_place stores the record in the chosen empty slot and writes that slot to `*retval`; on failure nothing changes; the invariant holds |
| FileTables.FileTable.PlaceAt | kern/syscall/file_syscalls.c:175 | filetable_placeat stores the value at `fd` and returns the old occupant, which then holds a unit no slot accounts for |
| FileTables.FileTable.OpenfileOpen | kern/syscall/file_syscalls.c:42-45 | openfile_open returns its error with nothing changed, or a new record with the access mode of `flags`, offset 0 and one reference |
| FileTables.FileTable.Decref | kern/syscall/file_syscalls.c:176-178 | openfile_decref drops one reference and destroys the record at zero, keeping the invariant |
| FileTables.FileTable.LockAcquire | kern/syscall/file_syscalls.c:81 | the offset lock of the record becomes held; it must not be held already |
| FileTables.FileTable.LockRelease | kern/syscall/file_syscalls.c:83 | only a held offset lock is released, and it then is no longer held |
| FileTables.CopyInStr | kern/syscall/file_syscalls.c:38-41 | copyinstr returns 0 exactly when it succeeds, or else its error |
| FileTables.UioTransfer | kern/syscall/file_syscalls.c:89-95 | VOP_READ/VOP_WRITE return an error, or a residual count at most `size` with the uio offset advanced by `size - resid` |
| FileSyscalls.SysOpen | kern/syscall/file_syscalls.c:28-65 | sys_open changes the table, returns and writes `*retval` exactly as `Open` says, and keeps the invariant |
| FileSyscalls.SysRead | kern/syscall/file_syscalls.c:73-114 | sys_read matches `Transfer` for a read in state, result, `*retval` and puts; no offset lock is held on any return |
| FileSyscalls.SysWrite | kern/syscall/file_syscalls.c:121-162 | sys_write matches `Transfer` for a write in state, result, `*retval` and puts; no offset lock is held on any return |
| FileSyscalls.SysClose | kern/syscall/file_syscalls.c:168-187 | sys_close matches `Close`: EBADF, or the slot emptied and its old occupant decref'd only if non-NULL |
| FileSyscalls.SysMeld | kern/syscall/file_syscalls.c:191-226 | sys_meld's copies and opens, followed by its places and closes, match `Meld` and keep the invariant |
| FileSyscalls.MeldPlaceAll | kern/syscall/file_syscalls.c:227-241 | meld's three places, each early return with the last placed fd in `*retval`, match `MeldPlaced` |
| FileSyscalls.MeldCloseAll | kern/syscall/file_syscalls.c:248-250 | meld's three sys_close calls release the three placed records as `MeldClosed` says |
| SyscallProps.ReleaseKeepsValid | kern/syscall/file_syscalls.c:175-178 | emptying a slot and decref'ing its old occupant keeps the invariant |
| SyscallProps.CloseKeepsValid | kern/syscall/file_syscalls.c:168-187 | sys_close keeps the invariant |
| SyscallProps.CloseRejected | kern/syscall/file_syscalls.c:171-173 | a rejected fd gives EBADF with the table and every reference count unchanged |
| SyscallProps.CloseAccepted | kern/syscall/file_syscalls.c:174-186 | an accepted fd returns 0, empties slot `fd`, leaves the other slots alone, and lowers exactly the old occupant's count by exactly one |
| SyscallProps.CloseTwiceReleasesOnce | kern/syscall/file_syscalls.c:174-186 | a second close of the same fd changes nothing and returns 0 or EBADF as filetable_okfd decides |
| SyscallProps.RejectsExactlyOneMode | kern/syscall/file_syscalls.c:82-85 | read rejects exactly O_WRONLY, write exactly O_RDONLY; O_RDWR and the unused mode value 3 pass both |
| SyscallProps.TransferKeepsValid | kern/syscall/file_syscalls.c:96 | a read or write keeps the invariant |
| SyscallProps.TransferGetFailed | kern/syscall/file_syscalls.c:77-80 | a filetable_get error is returned with nothing changed and no put |
| SyscallProps.TransferRejected | kern/syscall/file_syscalls.c:130-133 | a rejected access mode gives EBADF with table and offset unchanged and no put |
| SyscallProps.TransferVopFailed | kern/syscall/file_syscalls.c:139-143 | a VOP error is returned unchanged with the offset unmodified and no put |
| SyscallProps.TransferSucceeded | kern/syscall/file_syscalls.c:144-149 | a successful transfer returns 0, puts `fd` once, sets the offset to the uio's final offset, changes nothing else, and `*retval = size - resid` (between 0 and `size` when `size` fits in an int) |
| SyscallProps.TransferChangesOnlyOnSuccess | kern/syscall/file_syscalls.c:89-101 | a transfer returns 0 exactly when all steps pass; otherwise the state is unchanged, no put happens and `*retval` is not written |
| SyscallProps.OpenFlagCheckNeverFires | kern/syscall/file_syscalls.c:30-32 | `allflags` is the nonzero constant 127, so the check never rejects |
| SyscallProps.OpenKeepsValid | kern/syscall/file_syscalls.c:28-65 | sys_open keeps the invariant |
| SyscallProps.OpenErrors | kern/syscall/file_syscalls.c:38-49 | an error from copyinstr, openfile_open or filetable_place is returned unchanged, and later steps do not run |
| SyscallProps.OpenSucceeded | kern/syscall/file_syscalls.c:42-65 | a successful open returns 0 with `*retval` the chosen slot, which now holds a new record (mode of `flags`, offset 0, one reference); nothing else changes |
| SyscallProps.OpenLeaksOnPlaceFailure | kern/syscall/file_syscalls.c:46-49 | when filetable_place fails, the new record stays live with one reference no slot holds |
| SyscallProps.OpenThenClose | kern/syscall/file_syscalls.c:168-187 | closing the fd a successful open returned restores the table and records exactly |
| SyscallProps.MeldClosedKeepsValid | kern/syscall/file_syscalls.c:248-250 | meld's three closes keep the invariant |
| SyscallProps.MeldPlacedKeepsValid | kern/syscall/file_syscalls.c:227-241 | meld's three places, and the closes after them, keep the invariant |
| SyscallProps.MeldKeepsValid | kern/syscall/file_syscalls.c:191-263 | sys_meld keeps the invariant on every path |
| SyscallProps.MeldCopyFailed | kern/syscall/file_syscalls.c:198-211 | a failing copyinstr returns an error before anything is opened |
| SyscallProps.MeldOpensWithCallerFlags | kern/syscall/file_syscalls.c:215-223 | every record sys_meld leaves behind was opened with the caller's `flags` |
| SyscallProps.MeldLeaksOnEarlyReturn | kern/syscall/file_syscalls.c:215-240 | each early return after the first open leaves every record opened so far live with one reference and every slot placed so far occupied, with `*retval` the last placed fd |
| SyscallProps.MeldSucceeded | kern/syscall/file_syscalls.c:227-263 | an all-success meld returns 0 with `*retval` = fd3 and leaves table and records as before, each new record having lost its one reference |

## Left out

- copyinstr, user-space addresses, `kmalloc` and the never-freed path buffers: a copy is only an outcome, success or an error. The paths and `mode` are not passed on.
- The inside of openfile_open, uio_kinit, VOP_READ and VOP_WRITE: only the access mode of a new record and the residual count and offset of a transfer are modelled. No file contents are modelled.
- The bodies of the filetable_* and openfile_* functions are not part of this model. Their contracts are the least this file relies on; no validation rule of theirs is invented: openfile_open may fail or succeed for any `flags`.
- filetable_place is assumed to leave `*retval` untouched when it fails, so meld's `fd1 = *retval` after a failed place is not observed.
- Locking and concurrency: the offset lock is a ghost set of held records in a sequential model. No other thread shares a record, and other tables' references appear only as reference counts above the slot count.
- The word-by-word merge of sys_meld: it exists only as comments, so the model opens, places and closes, and nothing more.
- The errno, fcntl and limits headers are not part of this model. EBADF = 30, OPEN_MAX = 128 and the O_* bits are OS/161's values.
- Seek offsets are unbounded integers: a 64-bit `off_t` overflow is not modelled. `size_t` and `int` are 32 bits, and `*retval` is `size - resid` converted to a 32-bit int.
- FileSyscalls.SysMeld: the body is split into three methods at its phase boundaries (opens, places, closes). The split keeps each proof small and does not change the order of steps.
- openfile_open is assumed to store `flags & O_ACCMODE` as the record's access mode, since the file compares `of_accmode` with O_WRONLY and O_RDONLY.
- filetable_create is not part of this model. `FileTables.FileTable.Create` only builds one empty table that meets the invariant.
