/**
 * The five file system calls of kern/syscall/file_syscalls.c, step by step.
 * Each takes the calling process's table `ft` as a parameter (the source
 * reaches it through `curproc->p_filetable`) and returns its result code
 * together with the value it left in `*retval` (None: not written).
 * Each call is proved to do what its function in SyscallSpec says, to keep
 * the table's ownership invariant, and to leave no offset lock held.
 */
module FileSyscalls {
  import opened Kernel
  import opened FileTables
  import opened SyscallSpec

  method SysOpen(ft: FileTable, flags: bv32, env: OpenEnv) returns (result: int, retval: Option<int>)
    requires ft.Valid() && OpenEnvAllowed(ft.Abs(), flags, env)
    modifies ft, ft.slots
    ensures ft.Valid() && ft.locked == old(ft.locked) && ft.putLog == old(ft.putLog)
    ensures var o := Open(old(ft.Abs()), flags, env);
            ft.Abs() == o.state && result == o.result && retval == o.retval
  {
    retval := None;
    if ALL_FLAGS == 0 {
      return ALL_FLAGS as int, retval;
    }
    result := CopyInStr(env.copy);
    if result != 0 {
      return;
    }
    var file;
    result, file := ft.OpenfileOpen(flags, env.open);
    if result != 0 {
      return;
    }
    result, retval := ft.Place(file, env.place, retval);
    if result != 0 {
      return;
    }
  }

  method SysRead(ft: FileTable, fd: int, size: Size, env: TransferEnv) returns (result: int, retval: Option<int>)
    requires ft.Valid() && ft.locked == {} && TransferEnvAllowed(ft.Abs(), fd, size, env)
    modifies ft
    ensures ft.Valid() && ft.locked == {}
    ensures var o := Transfer(old(ft.Abs()), UioRead, fd, size, env);
            ft.Abs() == o.state && result == o.result && retval == o.retval &&
            ft.putLog == old(ft.putLog) + o.puts
  {
    retval := None;
    var file;
    result, file := ft.Get(fd, env.get);
    if result != 0 {
      return;
    }
    ft.LockAcquire(file);
    if ft.files[file].mode == O_WRONLY {
      ft.LockRelease(file);
      return EBADF, retval;
    }
    var resid, uioOffset;
    result, resid, uioOffset := UioTransfer(UioRead, ft.files[file].offset, size, env.vop);
    if result != 0 {
      ft.LockRelease(file);
      return;
    }
    assert file in ft.locked;
    ft.files := ft.files[file := ft.files[file].(offset := uioOffset)];
    ft.LockRelease(file);
    ft.Put(fd, file);
    retval := Some(Int32Of(size - resid));
  }

  method SysWrite(ft: FileTable, fd: int, size: Size, env: TransferEnv) returns (result: int, retval: Option<int>)
    requires ft.Valid() && ft.locked == {} && TransferEnvAllowed(ft.Abs(), fd, size, env)
    modifies ft
    ensures ft.Valid() && ft.locked == {}
    ensures var o := Transfer(old(ft.Abs()), UioWrite, fd, size, env);
            ft.Abs() == o.state && result == o.result && retval == o.retval &&
            ft.putLog == old(ft.putLog) + o.puts
  {
    retval := None;
    var file;
    result, file := ft.Get(fd, env.get);
    if result != 0 {
      return;
    }
    ft.LockAcquire(file);
    if ft.files[file].mode == O_RDONLY {
      ft.LockRelease(file);
      return EBADF, retval;
    }
    var resid, uioOffset;
    result, resid, uioOffset := UioTransfer(UioWrite, ft.files[file].offset, size, env.vop);
    if result != 0 {
      ft.LockRelease(file);
      return;
    }
    assert file in ft.locked;
    ft.files := ft.files[file := ft.files[file].(offset := uioOffset)];
    ft.LockRelease(file);
    ft.Put(fd, file);
    retval := Some(Int32Of(size - resid));
  }

  /** `ok` is filetable_okfd's answer for `fd`. */
  method SysClose(ft: FileTable, fd: int, ok: bool) returns (result: int)
    requires ft.Valid() && ft.locked == {} && OkFdAllowed(ft.Abs(), fd, ok)
    modifies ft, ft.slots
    ensures ft.Valid() && ft.locked == {} && ft.putLog == old(ft.putLog)
    ensures var o := Close(old(ft.Abs()), fd, ok);
            ft.Abs() == o.state && result == o.result
  {
    result := 0;
    var valid := ft.OkFd(fd, ok);
    if !valid {
      return EBADF;
    }
    var file := ft.PlaceAt(None, fd);
    if file.Some? {
      ft.Decref(file.value);
    }
  }

  /**
   * sys_meld. The body is split at its phase boundaries: the copies and opens
   * here, the places in MeldPlaceAll, the closes in MeldCloseAll.
   */
  method SysMeld(ft: FileTable, flags: bv32, env: MeldEnv) returns (result: int, retval: Option<int>)
    requires ft.Valid() && ft.locked == {} && MeldEnvAllowed(ft.Abs(), flags, env)
    modifies ft, ft.slots
    ensures ft.Valid() && ft.locked == {} && ft.putLog == old(ft.putLog)
    ensures var o := Meld(old(ft.Abs()), flags, env);
            ft.Abs() == o.state && result == o.result && retval == o.retval
  {
    retval := None;
    result := CopyInStr(env.copy1);
    if result != 0 {
      return;
    }
    result := CopyInStr(env.copy2);
    if result != 0 {
      return;
    }
    result := CopyInStr(env.copy3);
    if result != 0 {
      return;
    }
    var file1, file2, file3;
    result, file1 := ft.OpenfileOpen(flags, env.open1);
    if result != 0 {
      return;
    }
    result, file2 := ft.OpenfileOpen(flags, env.open2);
    if result != 0 {
      return;
    }
    result, file3 := ft.OpenfileOpen(flags, env.open3);
    if result != 0 {
      return;
    }
    result, retval := MeldPlaceAll(ft, file1, file2, file3, env);
  }

  /** The three filetable_place calls of sys_meld, then its closes. */
  method MeldPlaceAll(ft: FileTable, file1: FileId, file2: FileId, file3: FileId, env: MeldEnv)
    returns (result: int, retval: Option<int>)
    requires ft.Valid() && ft.locked == {}
    requires PlaceAllowed(ft.Abs(), env.place1) && PlaceAllowed(ft.Abs(), env.place2) && PlaceAllowed(ft.Abs(), env.place3)
    requires env.place1.Placed? && env.place2.Placed? ==> env.place1.fd != env.place2.fd
    requires env.place1.Placed? && env.place3.Placed? ==> env.place1.fd != env.place3.fd
    requires env.place2.Placed? && env.place3.Placed? ==> env.place2.fd != env.place3.fd
    requires file2 == file1 + 1 && file3 == file1 + 2
    requires file1 in ft.files && file2 in ft.files && file3 in ft.files
    requires Refs(ft.slots[..], file1) == 0 && Refs(ft.slots[..], file2) == 0 && Refs(ft.slots[..], file3) == 0
    requires ft.files[file1].refcount == 1 && ft.files[file2].refcount == 1 && ft.files[file3].refcount == 1
    modifies ft.slots, ft
    ensures ft.Valid() && ft.locked == {} && ft.putLog == old(ft.putLog)
    ensures var o := MeldPlaced(old(ft.Abs()), file1, env);
            ft.Abs() == o.state && result == o.result && retval == o.retval
  {
    ghost var s3 := ft.Abs();
    retval := None;
    result, retval := ft.Place(file1, env.place1, retval);
    var fd1 := retval;
    if result != 0 {
      return;
    }
    RefsSet(s3.slots, fd1.value, Some(file1), file2);
    RefsSet(s3.slots, fd1.value, Some(file1), file3);
    ghost var s4 := ft.Abs();
    result, retval := ft.Place(file2, env.place2, retval);
    var fd2 := retval;
    if result != 0 {
      return;
    }
    RefsSet(s4.slots, fd2.value, Some(file2), file3);
    result, retval := ft.Place(file3, env.place3, retval);
    if result != 0 {
      return;
    }
    var fd3 := retval;
    MeldCloseAll(ft, file1, fd1.value, fd2.value, fd3.value);
  }

  /**
   * The three sys_close calls that end sys_meld, their results ignored.
   * Each gets filetable_okfd's answer `true`: each fd was just placed and
   * is still occupied, so filetable_okfd must accept it.
   */
  method MeldCloseAll(ft: FileTable, first: FileId, fd1: nat, fd2: nat, fd3: nat)
    requires ft.Valid() && ft.locked == {}
    requires fd1 < ft.slots.Length && fd2 < ft.slots.Length && fd3 < ft.slots.Length
    requires fd1 != fd2 && fd1 != fd3 && fd2 != fd3
    requires ft.slots[fd1] == Some(first) && ft.slots[fd2] == Some(first + 1) && ft.slots[fd3] == Some(first + 2)
    modifies ft.slots, ft
    ensures ft.Valid() && ft.locked == {} && ft.putLog == old(ft.putLog)
    ensures ft.Abs() == MeldClosed(old(ft.Abs()), first, fd1, fd2, fd3)
  {
    var _ := SysClose(ft, fd1, true);
    var _ := SysClose(ft, fd2, true);
    var _ := SysClose(ft, fd3, true);
  }
}
