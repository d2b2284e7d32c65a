/**
 * The collaborators of the file system calls whose bodies are not part of
 * this model: the descriptor table operations (filetable_get, _put, _place,
 * _placeat, _okfd), the open-file operations (openfile_open, _decref, and the
 * offset lock), and the user-copy and vnode calls (copyinstr, VOP_READ,
 * VOP_WRITE). Each is a method whose contract is the least that
 * file_syscalls.c relies on; its body is one behaviour meeting that contract,
 * steered by the outcome parameter, and callers see only the contract.
 */
module FileTables {
  import opened Kernel

  /**
   * One process's descriptor table together with the open-file records it
   * can reach. `locked` is the set of records whose offset lock is held;
   * `putLog` records the fds handed to filetable_put, in order.
   */
  class FileTable {
    const slots: array<Option<FileId>>
    var files: map<FileId, OpenFile>
    var next: FileId
    ghost var locked: set<FileId>
    ghost var putLog: seq<int>

    ghost function Abs(): State
      reads this, slots
    {
      State(slots[..], files, next)
    }

    ghost predicate Valid()
      reads this, slots
    {
      Kernel.Valid(Abs()) && locked <= files.Keys
    }

    /** An empty table with no records: an initial state meeting the invariant. */
    constructor Create()
      ensures Valid() && fresh(slots)
      ensures Abs() == State(seq(OPEN_MAX, _ => None), map[], 0)
      ensures locked == {} && putLog == []
    {
      slots := new Option<FileId>[OPEN_MAX](_ => None);
      files := map[];
      next := 0;
      locked := {};
      putLog := [];
    }

    /** filetable_okfd: whether `fd` may be handed to filetable_placeat. */
    method OkFd(fd: int, ok: bool) returns (b: bool)
      requires OkFdAllowed(Abs(), fd, ok)
      ensures b == ok
      ensures b ==> 0 <= fd < slots.Length
      ensures 0 <= fd < slots.Length && slots[fd].Some? ==> b
    {
      b := ok;
    }

    /** filetable_get: on success, the record in slot `fd`, borrowed. */
    method Get(fd: int, o: Step) returns (result: int, file: FileId)
      requires Valid() && GetAllowed(Abs(), fd, o)
      ensures o.Pass? ==> result == 0 && 0 <= fd < slots.Length && slots[fd] == Some(file) && file in files
      ensures o.Fail? ==> result == o.err
    {
      match o
      case Pass =>
        result, file := 0, slots[fd].value;
      case Fail(e) =>
        result, file := e, 0;
    }

    /** filetable_put: ends the borrow begun by Get. */
    method Put(fd: int, file: FileId)
      modifies this`putLog
      ensures putLog == old(putLog) + [fd]
    {
      putLog := putLog + [fd];
    }

    /**
     * filetable_place: stores `file` in the slot the outcome chose and writes
     * that slot to `*retval`; on failure neither the table nor `*retval`
     * changes. The caller gives the table a reference unit no slot holds.
     */
    method Place(file: FileId, o: PlaceOutcome, retval: Option<int>) returns (result: int, retval': Option<int>)
      requires Valid() && file in files && Refs(slots[..], file) < files[file].refcount
      requires PlaceAllowed(Abs(), o)
      modifies slots
      ensures Valid() && unchanged(this)
      ensures o.Placed? ==> result == 0 && retval' == Some(o.fd) && Abs() == SetSlot(old(Abs()), o.fd, Some(file))
      ensures o.PlaceFailed? ==> result == o.err && retval' == retval && Abs() == old(Abs())
    {
      match o
      case Placed(fd) =>
        SetSlotKeepsValid(Abs(), fd, Some(file));
        slots[fd] := Some(file);
        result, retval' := 0, Some(fd);
      case PlaceFailed(e) =>
        result, retval' := e, retval;
    }

    /**
     * filetable_placeat: stores `v` in slot `fd` and returns the previous
     * occupant, whose reference unit the caller now holds.
     */
    method PlaceAt(v: Option<FileId>, fd: int) returns (oldFile: Option<FileId>)
      requires Valid() && 0 <= fd < slots.Length
      requires v.Some? ==> v.value in files && Refs(slots[..], v.value) < files[v.value].refcount
      modifies slots
      ensures Valid() && unchanged(this)
      ensures oldFile == old(slots[fd]) && Abs() == SetSlot(old(Abs()), fd, v)
      ensures oldFile.Some? && oldFile != v ==>
                oldFile.value in files && Refs(slots[..], oldFile.value) < files[oldFile.value].refcount
    {
      SetSlotKeepsValid(Abs(), fd, v);
      oldFile := slots[fd];
      slots[fd] := v;
    }

    /** openfile_open: a new record with the access mode `flags` names. */
    method OpenfileOpen(flags: bv32, o: Step) returns (result: int, file: FileId)
      requires Valid()
      modifies this
      ensures Valid() && locked == old(locked) && putLog == old(putLog)
      ensures o.Pass? ==> result == 0 && file == old(next) && Abs() == NewFile(old(Abs()), AccModeOf(flags))
      ensures o.Pass? ==> Refs(slots[..], file) == 0
      ensures o.Fail? ==> result == o.err && Abs() == old(Abs())
    {
      match o
      case Pass =>
        NewFileKeepsValid(Abs(), AccModeOf(flags));
        files := files[next := OpenFile(AccModeOf(flags), 0, 1)];
        result, file := 0, next;
        next := next + 1;
      case Fail(e) =>
        result, file := e, 0;
    }

    /** openfile_decref: gives back a unit no slot here holds. */
    method Decref(file: FileId)
      requires Valid() && file in files && file !in locked
      requires Refs(slots[..], file) < files[file].refcount
      modifies this
      ensures Valid() && locked == old(locked) && putLog == old(putLog)
      ensures Abs() == DropRef(old(Abs()), file)
    {
      DropRefKeepsValid(Abs(), file);
      if files[file].refcount <= 1 {
        files := files - {file};
      } else {
        files := files[file := files[file].(refcount := files[file].refcount - 1)];
      }
    }

    /** lock_acquire(file->of_offsetlock); the lock is not recursive. */
    method LockAcquire(file: FileId)
      requires file in files && file !in locked
      modifies this`locked
      ensures locked == old(locked) + {file}
    {
      locked := locked + {file};
    }

    /** lock_release(file->of_offsetlock); only the holder releases. */
    method LockRelease(file: FileId)
      requires file in locked
      modifies this`locked
      ensures locked == old(locked) - {file}
    {
      locked := locked - {file};
    }
  }

  /** copyinstr of a path: 0 or the error it reports. */
  method CopyInStr(o: Step) returns (result: int)
    ensures result == 0 <==> o.Pass?
    ensures o.Fail? ==> result == o.err
  {
    result := if o.Pass? then 0 else o.err;
  }

  datatype Direction = UioRead | UioWrite

  /**
   * uio_kinit followed by VOP_READ or VOP_WRITE for `size` bytes at
   * `offset`: either an error, or a residual count `resid <= size` with the
   * uio's offset advanced by the bytes moved.
   */
  method UioTransfer(dir: Direction, offset: int, size: Size, o: TransferOutcome)
    returns (result: int, resid: nat, uioOffset: int)
    requires TransferAllowed(size, o)
    ensures result == 0 <==> o.Transferred?
    ensures o.TransferFailed? ==> result == o.err
    ensures o.Transferred? ==> resid == o.resid && resid <= size && uioOffset == offset + (size - resid)
  {
    match o
    case Transferred(r) =>
      result, resid, uioOffset := 0, r, offset + (size - r);
    case TransferFailed(e) =>
      result, resid, uioOffset := e, size, offset;
  }
}
