/**
 * What each of the five file system calls does to the state, as a function
 * of the state before the call, its arguments and the collaborators'
 * outcomes, following kern/syscall/file_syscalls.c as written. Their properties
 * are proved in SyscallProps.
 */
module SyscallSpec {
  import opened Kernel
  import opened FileTables

  // ---------------------------------------------------------------------
  // open

  datatype OpenEnv = OpenEnv(copy: Step, open: Step, place: PlaceOutcome)

  predicate OpenEnvAllowed(s: State, flags: bv32, env: OpenEnv) {
    PlaceAllowed(s, env.place)
  }

  /** sys_open: check allflags, copy the path, open the record, place it. */
  function Open(s: State, flags: bv32, env: OpenEnv): Outcome
    requires OpenEnvAllowed(s, flags, env)
  {
    if ALL_FLAGS == 0 then Outcome(s, ALL_FLAGS as int, None, [])
    else if env.copy.Fail? then Outcome(s, env.copy.err, None, [])
    else if env.open.Fail? then Outcome(s, env.open.err, None, [])
    else
      var s1 := NewFile(s, AccModeOf(flags));
      match env.place
      case PlaceFailed(e) => Outcome(s1, e, None, [])
      case Placed(fd) => Outcome(SetSlot(s1, fd, Some(s.next)), 0, Some(fd), [])
  }

  // ---------------------------------------------------------------------
  // read and write

  datatype TransferEnv = TransferEnv(get: Step, vop: TransferOutcome)

  predicate TransferEnvAllowed(s: State, fd: int, size: Size, env: TransferEnv) {
    GetAllowed(s, fd, env.get) && TransferAllowed(size, env.vop)
  }

  /** The access mode a transfer turns away: read refuses O_WRONLY, write O_RDONLY. */
  predicate Rejects(dir: Direction, mode: AccMode) {
    match dir
    case UioRead => mode == O_WRONLY
    case UioWrite => mode == O_RDONLY
  }

  /** sys_read (UioRead) and sys_write (UioWrite). */
  function Transfer(s: State, dir: Direction, fd: int, size: Size, env: TransferEnv): Outcome
    requires Valid(s) && TransferEnvAllowed(s, fd, size, env)
  {
    match env.get
    case Fail(e) => Outcome(s, e, None, [])
    case Pass =>
      var id := s.slots[fd].value;
      var f := s.files[id];
      if Rejects(dir, f.mode) then Outcome(s, EBADF, None, [])
      else
        match env.vop
        case TransferFailed(e) => Outcome(s, e, None, [])
        case Transferred(resid) =>
          Outcome(s.(files := s.files[id := f.(offset := f.offset + (size - resid))]),
                  0, Some(Int32Of(size - resid)), [fd])
  }

  // ---------------------------------------------------------------------
  // close

  /** filetable_placeat(NULL) on slot `fd`, then decref the old occupant if there was one. */
  function Release(s: State, fd: nat): State
    requires fd < |s.slots| && (s.slots[fd].Some? ==> s.slots[fd].value in s.files)
  {
    var s1 := SetSlot(s, fd, None);
    match s.slots[fd]
    case None => s1
    case Some(id) => DropRef(s1, id)
  }

  /** sys_close; `ok` is filetable_okfd's answer. */
  function Close(s: State, fd: int, ok: bool): Outcome
    requires Valid(s) && OkFdAllowed(s, fd, ok)
  {
    if !ok then Outcome(s, EBADF, None, [])
    else Outcome(Release(s, fd), 0, None, [])
  }

  // ---------------------------------------------------------------------
  // meld

  datatype MeldEnv = MeldEnv(copy1: Step, copy2: Step, copy3: Step,
                             open1: Step, open2: Step, open3: Step,
                             place1: PlaceOutcome, place2: PlaceOutcome, place3: PlaceOutcome)

  /** The slots the three places choose are empty beforehand and pairwise distinct. */
  predicate MeldEnvAllowed(s: State, flags: bv32, env: MeldEnv) {
    PlaceAllowed(s, env.place1) && PlaceAllowed(s, env.place2) && PlaceAllowed(s, env.place3) &&
    (env.place1.Placed? && env.place2.Placed? ==> env.place1.fd != env.place2.fd) &&
    (env.place1.Placed? && env.place3.Placed? ==> env.place1.fd != env.place3.fd) &&
    (env.place2.Placed? && env.place3.Placed? ==> env.place2.fd != env.place3.fd)
  }

  /** The three closes at the end of a meld whose steps all succeeded. */
  function MeldClosed(s6: State, first: FileId, fd1: nat, fd2: nat, fd3: nat): State
    requires fd1 < |s6.slots| && fd2 < |s6.slots| && fd3 < |s6.slots|
    requires fd1 != fd2 && fd1 != fd3 && fd2 != fd3
    requires s6.slots[fd1] == Some(first) && s6.slots[fd2] == Some(first + 1) && s6.slots[fd3] == Some(first + 2)
    requires first in s6.files && first + 1 in s6.files && first + 2 in s6.files
  {
    var s7 := Release(s6, fd1);
    var s8 := Release(s7, fd2);
    Release(s8, fd3)
  }

  /** meld's three places, after its three opens gave the records `first`, `first + 1`, `first + 2`. */
  function MeldPlaced(s3: State, first: FileId, env: MeldEnv): Outcome
    requires PlaceAllowed(s3, env.place1) && PlaceAllowed(s3, env.place2) && PlaceAllowed(s3, env.place3)
    requires env.place1.Placed? && env.place2.Placed? ==> env.place1.fd != env.place2.fd
    requires env.place1.Placed? && env.place3.Placed? ==> env.place1.fd != env.place3.fd
    requires env.place2.Placed? && env.place3.Placed? ==> env.place2.fd != env.place3.fd
    requires first in s3.files && first + 1 in s3.files && first + 2 in s3.files
  {
    match env.place1
    case PlaceFailed(e) => Outcome(s3, e, None, [])
    case Placed(fd1) =>
      var s4 := SetSlot(s3, fd1, Some(first));
      match env.place2
      case PlaceFailed(e) => Outcome(s4, e, Some(fd1), [])
      case Placed(fd2) =>
        var s5 := SetSlot(s4, fd2, Some(first + 1));
        match env.place3
        case PlaceFailed(e) => Outcome(s5, e, Some(fd2), [])
        case Placed(fd3) =>
          var s6 := SetSlot(s5, fd3, Some(first + 2));
          Outcome(MeldClosed(s6, first, fd1, fd2, fd3), 0, Some(fd3), [])
  }

  /** sys_meld: three copies, three opens, three places, three closes. */
  function Meld(s: State, flags: bv32, env: MeldEnv): Outcome
    requires Valid(s) && MeldEnvAllowed(s, flags, env)
  {
    if env.copy1.Fail? then Outcome(s, env.copy1.err, None, [])
    else if env.copy2.Fail? then Outcome(s, env.copy2.err, None, [])
    else if env.copy3.Fail? then Outcome(s, env.copy3.err, None, [])
    else if env.open1.Fail? then Outcome(s, env.open1.err, None, [])
    else
      var mode := AccModeOf(flags);
      var s1 := NewFile(s, mode);
      if env.open2.Fail? then Outcome(s1, env.open2.err, None, [])
      else
        var s2 := NewFile(s1, mode);
        if env.open3.Fail? then Outcome(s2, env.open3.err, None, [])
        else MeldPlaced(NewFile(s2, mode), s.next, env)
  }
}
