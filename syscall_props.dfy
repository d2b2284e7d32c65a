/**
 * Properties of the five file system calls, stated over the functions of
 * SyscallSpec for every state, argument and collaborator outcome allowed.
 * Several describe the code as written where it departs from what its own
 * comments say it does (the allflags check that never fires, the record
 * open leaks when filetable_place fails, meld's early returns and its retval).
 */
module SyscallProps {
  import opened Kernel
  import opened FileTables
  import opened SyscallSpec

  // ---------------------------------------------------------------------
  // close

  /** Clearing a slot and dropping its old occupant keeps the ownership invariant. */
  lemma ReleaseKeepsValid(s: State, fd: nat)
    requires Valid(s) && fd < |s.slots|
    ensures Valid(Release(s, fd))
  {
    SetSlotKeepsValid(s, fd, None);
    if s.slots[fd].Some? {
      DropRefKeepsValid(SetSlot(s, fd, None), s.slots[fd].value);
    }
  }

  lemma CloseKeepsValid(s: State, fd: int, ok: bool)
    requires Valid(s) && OkFdAllowed(s, fd, ok)
    ensures Valid(Close(s, fd, ok).state)
  {
    if ok {
      ReleaseKeepsValid(s, fd);
    }
  }

  /** An fd that filetable_okfd rejects: EBADF, and nothing changes. */
  lemma CloseRejected(s: State, fd: int, ok: bool)
    requires Valid(s) && OkFdAllowed(s, fd, ok) && !ok
    ensures Close(s, fd, ok) == Outcome(s, EBADF, None, [])
    ensures forall id: FileId :: RefCount(Close(s, fd, ok).state, id) == RefCount(s, id)
  {
  }

  /**
   * An fd that filetable_okfd accepts: slot `fd` is emptied, no other slot
   * changes, the call returns 0, and exactly the old occupant (if any) loses
   * exactly one reference; no other record changes.
   */
  lemma CloseAccepted(s: State, fd: int, ok: bool)
    requires Valid(s) && OkFdAllowed(s, fd, ok) && ok
    ensures var r := Close(s, fd, ok);
      r.result == 0 && r.retval == None &&
      |r.state.slots| == |s.slots| && r.state.slots[fd] == None &&
      (forall i :: 0 <= i < |s.slots| && i != fd ==> r.state.slots[i] == s.slots[i]) &&
      (forall id: FileId :: RefCount(r.state, id) == RefCount(s, id) - (if s.slots[fd] == Some(id) then 1 else 0)) &&
      (forall id :: id in r.state.files ==>
         id in s.files && r.state.files[id].mode == s.files[id].mode && r.state.files[id].offset == s.files[id].offset)
  {
  }

  /**
   * Closing the same fd a second time releases nothing: the slot is already
   * empty. As written, if filetable_okfd accepts the empty slot the second
   * close returns 0 rather than EBADF.
   */
  lemma CloseTwiceReleasesOnce(s: State, fd: int, ok1: bool, ok2: bool)
    requires Valid(s) && OkFdAllowed(s, fd, ok1) && ok1
    requires OkFdAllowed(Close(s, fd, ok1).state, fd, ok2)
    ensures Valid(Close(s, fd, ok1).state)
    ensures var s1 := Close(s, fd, ok1).state;
      var r := Close(s1, fd, ok2);
      r.state == s1 && r.result == (if ok2 then 0 else EBADF)
  {
    CloseKeepsValid(s, fd, ok1);
  }

  // ---------------------------------------------------------------------
  // read and write

  /**
   * Each transfer turns away exactly one access mode; O_RDWR passes both,
   * and so, as written, does the unused access-mode value 3.
   */
  lemma RejectsExactlyOneMode(m: AccMode)
    ensures Rejects(UioRead, m) <==> m == O_WRONLY
    ensures Rejects(UioWrite, m) <==> m == O_RDONLY
    ensures !Rejects(UioRead, O_RDWR) && !Rejects(UioWrite, O_RDWR)
    ensures !Rejects(UioRead, O_ACCMODE) && !Rejects(UioWrite, O_ACCMODE)
  {
  }

  lemma TransferKeepsValid(s: State, dir: Direction, fd: int, size: Size, env: TransferEnv)
    requires Valid(s) && TransferEnvAllowed(s, fd, size, env)
    ensures Valid(Transfer(s, dir, fd, size, env).state)
  {
    var r := Transfer(s, dir, fd, size, env);
    if r.state != s {
      var id := s.slots[fd].value;
      assert r.state.slots == s.slots && r.state.files.Keys == s.files.Keys;
      assert forall x :: x in s.files ==> r.state.files[x].refcount == s.files[x].refcount;
    }
  }

  /** A failing filetable_get: its error, nothing changed, no filetable_put. */
  lemma TransferGetFailed(s: State, dir: Direction, fd: int, size: Size, env: TransferEnv)
    requires Valid(s) && TransferEnvAllowed(s, fd, size, env) && env.get.Fail?
    ensures Transfer(s, dir, fd, size, env) == Outcome(s, env.get.err, None, [])
  {
  }

  /** The mode check: EBADF, offset and table unchanged, no filetable_put. */
  lemma TransferRejected(s: State, dir: Direction, fd: int, size: Size, env: TransferEnv)
    requires Valid(s) && TransferEnvAllowed(s, fd, size, env) && env.get.Pass?
    requires Rejects(dir, s.files[s.slots[fd].value].mode)
    ensures Transfer(s, dir, fd, size, env) == Outcome(s, EBADF, None, [])
  {
  }

  /** A failing VOP_READ / VOP_WRITE: its error unchanged, offset unchanged, no filetable_put. */
  lemma TransferVopFailed(s: State, dir: Direction, fd: int, size: Size, env: TransferEnv)
    requires Valid(s) && TransferEnvAllowed(s, fd, size, env) && env.get.Pass?
    requires !Rejects(dir, s.files[s.slots[fd].value].mode) && env.vop.TransferFailed?
    ensures Transfer(s, dir, fd, size, env) == Outcome(s, env.vop.err, None, [])
  {
  }

  /**
   * A successful transfer: returns 0, calls filetable_put once with `fd`,
   * moves the record's offset to the uio's final offset and changes nothing
   * else; `*retval` is `size - resid` as a 32-bit int, which is that count
   * itself, between 0 and `size`, whenever `size` fits in an int.
   */
  lemma TransferSucceeded(s: State, dir: Direction, fd: int, size: Size, env: TransferEnv)
    requires Valid(s) && TransferEnvAllowed(s, fd, size, env) && env.get.Pass?
    requires !Rejects(dir, s.files[s.slots[fd].value].mode) && env.vop.Transferred?
    ensures var r := Transfer(s, dir, fd, size, env);
      var id := s.slots[fd].value;
      var resid := env.vop.resid;
      r.result == 0 && r.puts == [fd] && r.state.slots == s.slots && r.state.next == s.next &&
      r.state.files.Keys == s.files.Keys &&
      r.state.files[id].offset == s.files[id].offset + (size - resid) &&
      r.state.files[id].mode == s.files[id].mode && r.state.files[id].refcount == s.files[id].refcount &&
      (forall x :: x in s.files && x != id ==> r.state.files[x] == s.files[x]) &&
      r.retval == Some(Int32Of(size - resid)) &&
      (size <= INT_MAX ==> r.retval == Some(size - resid) && 0 <= size - resid <= size)
  {
  }

  /** As written, a transfer never returns 0 without moving the offset to the uio's. */
  lemma TransferChangesOnlyOnSuccess(s: State, dir: Direction, fd: int, size: Size, env: TransferEnv)
    requires Valid(s) && TransferEnvAllowed(s, fd, size, env)
    ensures var r := Transfer(s, dir, fd, size, env);
      (r.result == 0 <==> env.get.Pass? && !Rejects(dir, s.files[s.slots[fd].value].mode) && env.vop.Transferred?) &&
      (r.result != 0 ==> r.state == s && r.puts == [] && r.retval == None)
  {
  }

  // ---------------------------------------------------------------------
  // open

  /** `allflags` is a nonzero constant, so the check on entry to sys_open never rejects. */
  lemma OpenFlagCheckNeverFires()
    ensures ALL_FLAGS == 127 && ALL_FLAGS != 0
  {
  }

  lemma OpenKeepsValid(s: State, flags: bv32, env: OpenEnv)
    requires Valid(s) && OpenEnvAllowed(s, flags, env)
    ensures Valid(Open(s, flags, env).state)
  {
    if env.copy.Pass? && env.open.Pass? {
      var s1 := NewFile(s, AccModeOf(flags));
      NewFileKeepsValid(s, AccModeOf(flags));
      if env.place.Placed? {
        SetSlotKeepsValid(s1, env.place.fd, Some(s.next));
      }
    }
  }

  /** An error from copyinstr, openfile_open or filetable_place is returned unchanged. */
  lemma OpenErrors(s: State, flags: bv32, env: OpenEnv)
    requires OpenEnvAllowed(s, flags, env)
    ensures env.copy.Fail? ==> Open(s, flags, env) == Outcome(s, env.copy.err, None, [])
    ensures env.copy.Pass? && env.open.Fail? ==> Open(s, flags, env) == Outcome(s, env.open.err, None, [])
    ensures env.copy.Pass? && env.open.Pass? && env.place.PlaceFailed? ==>
              Open(s, flags, env).result == env.place.err && Open(s, flags, env).retval == None &&
              Open(s, flags, env).state.slots == s.slots
  {
  }

  /**
   * A successful open returns 0 and the slot filetable_place chose; that
   * slot now holds a new record with the access mode of `flags`, offset 0
   * and one reference, and nothing else changes.
   */
  lemma OpenSucceeded(s: State, flags: bv32, env: OpenEnv)
    requires Valid(s) && OpenEnvAllowed(s, flags, env)
    requires env.copy.Pass? && env.open.Pass? && env.place.Placed?
    ensures var r := Open(s, flags, env);
      var fd := env.place.fd;
      r.result == 0 && r.retval == Some(fd) &&
      r.state.slots[fd] == Some(s.next) && s.next !in s.files &&
      r.state.files[s.next] == OpenFile(AccModeOf(flags), 0, 1) &&
      (forall i :: 0 <= i < |s.slots| && i != fd ==> r.state.slots[i] == s.slots[i]) &&
      (forall id :: id in s.files ==> id in r.state.files && r.state.files[id] == s.files[id]) &&
      r.state.files.Keys == s.files.Keys + {s.next}
  {
  }

  /**
   * As written, when filetable_place fails the new record is not released:
   * it stays live with one reference that no slot accounts for.
   */
  lemma OpenLeaksOnPlaceFailure(s: State, flags: bv32, env: OpenEnv)
    requires Valid(s) && OpenEnvAllowed(s, flags, env)
    requires env.copy.Pass? && env.open.Pass? && env.place.PlaceFailed?
    ensures var r := Open(s, flags, env);
      r.result != 0 && s.next !in s.files && RefCount(r.state, s.next) == 1 &&
      Refs(r.state.slots, s.next) == 0
  {
    RefsZero(s.slots, s.next);
  }

  /** An open that succeeds followed by a close of its fd leaves table and records as they were. */
  lemma OpenThenClose(s: State, flags: bv32, env: OpenEnv, ok: bool)
    requires Valid(s) && OpenEnvAllowed(s, flags, env)
    requires env.copy.Pass? && env.open.Pass? && env.place.Placed?
    requires OkFdAllowed(Open(s, flags, env).state, env.place.fd, ok)
    ensures Valid(Open(s, flags, env).state)
    ensures var c := Close(Open(s, flags, env).state, env.place.fd, ok);
      c.result == 0 && c.state.slots == s.slots && c.state.files == s.files
  {
    OpenKeepsValid(s, flags, env);
    var s1 := Open(s, flags, env).state;
    var c := Close(s1, env.place.fd, ok);
    assert c.state.slots == s.slots;
    assert c.state.files == s.files;
  }

  // ---------------------------------------------------------------------
  // meld

  lemma MeldClosedKeepsValid(s6: State, first: FileId, fd1: nat, fd2: nat, fd3: nat)
    requires Valid(s6)
    requires fd1 < |s6.slots| && fd2 < |s6.slots| && fd3 < |s6.slots|
    requires fd1 != fd2 && fd1 != fd3 && fd2 != fd3
    requires s6.slots[fd1] == Some(first) && s6.slots[fd2] == Some(first + 1) && s6.slots[fd3] == Some(first + 2)
    requires first in s6.files && first + 1 in s6.files && first + 2 in s6.files
    ensures Valid(MeldClosed(s6, first, fd1, fd2, fd3))
  {
    ReleaseKeepsValid(s6, fd1);
    var s7 := Release(s6, fd1);
    ReleaseKeepsValid(s7, fd2);
    ReleaseKeepsValid(Release(s7, fd2), fd3);
  }

  /** The place phase, starting from three new unplaced records. */
  lemma MeldPlacedKeepsValid(s3: State, first: FileId, env: MeldEnv)
    requires Valid(s3)
    requires PlaceAllowed(s3, env.place1) && PlaceAllowed(s3, env.place2) && PlaceAllowed(s3, env.place3)
    requires env.place1.Placed? && env.place2.Placed? ==> env.place1.fd != env.place2.fd
    requires env.place1.Placed? && env.place3.Placed? ==> env.place1.fd != env.place3.fd
    requires env.place2.Placed? && env.place3.Placed? ==> env.place2.fd != env.place3.fd
    requires first in s3.files && first + 1 in s3.files && first + 2 in s3.files
    requires Refs(s3.slots, first) == 0 && Refs(s3.slots, first + 1) == 0 && Refs(s3.slots, first + 2) == 0
    ensures Valid(MeldPlaced(s3, first, env).state)
  {
    if env.place1.Placed? {
      var fd1 := env.place1.fd;
      var s4 := SetSlot(s3, fd1, Some(first));
      SetSlotKeepsValid(s3, fd1, Some(first));
      RefsSet(s3.slots, fd1, Some(first), first + 1);
      RefsSet(s3.slots, fd1, Some(first), first + 2);
      if env.place2.Placed? {
        var fd2 := env.place2.fd;
        var s5 := SetSlot(s4, fd2, Some(first + 1));
        SetSlotKeepsValid(s4, fd2, Some(first + 1));
        RefsSet(s4.slots, fd2, Some(first + 1), first + 2);
        if env.place3.Placed? {
          var s6 := SetSlot(s5, env.place3.fd, Some(first + 2));
          SetSlotKeepsValid(s5, env.place3.fd, Some(first + 2));
          MeldClosedKeepsValid(s6, first, fd1, fd2, env.place3.fd);
        }
      }
    }
  }

  lemma MeldKeepsValid(s: State, flags: bv32, env: MeldEnv)
    requires Valid(s) && MeldEnvAllowed(s, flags, env)
    ensures Valid(Meld(s, flags, env).state)
  {
    if env.copy1.Pass? && env.copy2.Pass? && env.copy3.Pass? && env.open1.Pass? {
      var mode := AccModeOf(flags);
      var s1 := NewFile(s, mode);
      NewFileKeepsValid(s, mode);
      var s2 := NewFile(s1, mode);
      NewFileKeepsValid(s1, mode);
      var s3 := NewFile(s2, mode);
      NewFileKeepsValid(s2, mode);
      if env.open2.Pass? && env.open3.Pass? {
        RefsZero(s.slots, s.next + 1);
        RefsZero(s.slots, s.next + 2);
        MeldPlacedKeepsValid(s3, s.next, env);
      }
    }
  }

  /** A failing copyinstr: its error, and nothing has been opened yet. */
  lemma MeldCopyFailed(s: State, flags: bv32, env: MeldEnv)
    requires Valid(s) && MeldEnvAllowed(s, flags, env)
    requires env.copy1.Fail? || env.copy2.Fail? || env.copy3.Fail?
    ensures Meld(s, flags, env).state == s && Meld(s, flags, env).result != 0
  {
  }

  /** All three records meld creates are opened with the caller's `flags`, inputs included. */
  lemma MeldOpensWithCallerFlags(s: State, flags: bv32, env: MeldEnv)
    requires Valid(s) && MeldEnvAllowed(s, flags, env)
    ensures var r := Meld(s, flags, env).state;
      forall id :: id in r.files && id !in s.files ==>
        r.files[id] == OpenFile(AccModeOf(flags), 0, 1)
  {
    if env.copy1.Pass? && env.copy2.Pass? && env.copy3.Pass? && env.open1.Pass? &&
       env.open2.Pass? && env.open3.Pass? {
      var mode := AccModeOf(flags);
      var s3 := NewFile(NewFile(NewFile(s, mode), mode), mode);
      if env.place1.Placed? && env.place2.Placed? && env.place3.Placed? {
        MeldSucceeded(s, flags, env);
      } else {
        assert Meld(s, flags, env).state.files == s3.files;
      }
    }
  }

  /**
   * As written, every early return after the first openfile_open leaves
   * each record opened so far live and unreleased, a slot already placed
   * stays occupied, and `*retval` holds the slot of the last successful place.
   */
  lemma MeldLeaksOnEarlyReturn(s: State, flags: bv32, env: MeldEnv)
    requires Valid(s) && MeldEnvAllowed(s, flags, env)
    requires env.copy1.Pass? && env.copy2.Pass? && env.copy3.Pass? && env.open1.Pass?
    ensures var r := Meld(s, flags, env);
      r.result != 0 ==> s.next !in s.files && RefCount(r.state, s.next) == 1
    ensures var r := Meld(s, flags, env);
      env.open2.Pass? && r.result != 0 ==> s.next + 1 !in s.files && RefCount(r.state, s.next + 1) == 1
    ensures var r := Meld(s, flags, env);
      env.open2.Pass? && env.open3.Pass? && r.result != 0 ==>
        s.next + 2 !in s.files && RefCount(r.state, s.next + 2) == 1
    ensures var r := Meld(s, flags, env);
      env.open2.Pass? && env.open3.Pass? && env.place1.Placed? && r.result != 0 ==>
        r.state.slots[env.place1.fd] == Some(s.next)
    ensures var r := Meld(s, flags, env);
      env.open2.Pass? && env.open3.Pass? && env.place1.Placed? && env.place2.PlaceFailed? ==>
        r.retval == Some(env.place1.fd)
    ensures var r := Meld(s, flags, env);
      env.open2.Pass? && env.open3.Pass? && env.place1.Placed? && env.place2.Placed? && r.result != 0 ==>
        r.state.slots[env.place2.fd] == Some(s.next + 1) && r.retval == Some(env.place2.fd)
  {
  }

  /**
   * A meld whose every step succeeds places the three new records in three
   * slots and closes them again: it returns 0 with `*retval` equal to the
   * third fd (not a byte count), the table and the records are as before,
   * and each new record, created with one reference, has lost exactly that
   * one and been destroyed.
   */
  lemma MeldSucceeded(s: State, flags: bv32, env: MeldEnv)
    requires Valid(s) && MeldEnvAllowed(s, flags, env)
    requires env.copy1.Pass? && env.copy2.Pass? && env.copy3.Pass?
    requires env.open1.Pass? && env.open2.Pass? && env.open3.Pass?
    requires env.place1.Placed? && env.place2.Placed? && env.place3.Placed?
    ensures var r := Meld(s, flags, env);
      r.result == 0 && r.retval == Some(env.place3.fd) &&
      r.state.slots == s.slots && r.state.files == s.files &&
      RefCount(r.state, s.next) == 0 && RefCount(r.state, s.next + 1) == 0 && RefCount(r.state, s.next + 2) == 0
  {
    var mode := AccModeOf(flags);
    var s3 := NewFile(NewFile(NewFile(s, mode), mode), mode);
    var fd1, fd2, fd3 := env.place1.fd, env.place2.fd, env.place3.fd;
    var s6 := SetSlot(SetSlot(SetSlot(s3, fd1, Some(s.next)), fd2, Some(s.next + 1)), fd3, Some(s.next + 2));
    var s7 := Release(s6, fd1);
    assert s7.files == s3.files - {s.next};
    var s8 := Release(s7, fd2);
    assert s8.files == s3.files - {s.next, s.next + 1};
    var s9 := Release(s8, fd3);
    assert s9.files == s.files;
    assert s9.slots == s.slots;
    assert Meld(s, flags, env).state == s9;
  }
}
