/**
 * The state shared by the file system calls: one process's descriptor table
 * and the open-file records its slots point to, as values.
 *
 * The collaborators whose bodies are not part of this model (filetable_get,
 * filetable_place, filetable_okfd, openfile_open, copyinstr, VOP_READ and
 * VOP_WRITE) decide some things this model cannot see: whether they fail,
 * with which error, which slot is chosen, how many bytes are moved. Each such
 * decision is an explicit outcome value, and an "...Allowed" predicate states
 * the least the collaborator must guarantee for that outcome to be possible.
 */
module Kernel {

  datatype Option<+T> = None | Some(value: T)

  /** Size of a descriptor table (OS/161's OPEN_MAX). */
  const OPEN_MAX: nat := 128

  /** OS/161's "bad file number" error code. */
  const EBADF: int := 30

  /** Access-mode and modifier bits of the `flags` argument of open. */
  const O_RDONLY: bv32 := 0
  const O_WRONLY: bv32 := 1
  const O_RDWR: bv32 := 2
  const O_ACCMODE: bv32 := 3
  const O_CREAT: bv32 := 4
  const O_EXCL: bv32 := 8
  const O_TRUNC: bv32 := 16
  const O_APPEND: bv32 := 32
  const O_NOCTTY: bv32 := 64

  /** The constant `allflags` that sys_open tests on entry. */
  const ALL_FLAGS: bv32 := O_ACCMODE | O_CREAT | O_EXCL | O_TRUNC | O_APPEND | O_NOCTTY

  /** `size_t` and `int` are 32 bits wide on the kernel's target. */
  const INT_MAX: int := 0x7fff_ffff
  type Size = n: nat | n <= 0xffff_ffff

  /** C's conversion of a 32-bit unsigned value to a 32-bit `int`. */
  function Int32Of(x: Size): int {
    if x <= INT_MAX then x else x - 0x1_0000_0000
  }

  /** A nonzero result code: what `if (result)` treats as a failure. */
  type Errno = e: int | e != 0 witness 30

  /**
   * A record's access mode (`of_accmode`): the two access-mode bits of the
   * flags it was opened with. The value 3 names no mode but is not excluded.
   */
  type AccMode = m: bv32 | m <= O_ACCMODE

  function AccModeOf(flags: bv32): AccMode {
    flags & O_ACCMODE
  }

  /** An open-file record is named by a never-reused id (its address). */
  type FileId = nat

  datatype OpenFile = OpenFile(mode: AccMode, offset: int, refcount: nat)

  /**
   * `slots` is the process's table (None is a NULL entry), `files` holds
   * every live open-file record, and `next` is the id the next record
   * allocated will get.
   */
  datatype State = State(slots: seq<Option<FileId>>, files: map<FileId, OpenFile>, next: FileId)

  /** What a call returns: the new state, its result code, the value it left
      in `*retval` (None: not written), and the fds it gave to filetable_put. */
  datatype Outcome = Outcome(state: State, result: int, retval: Option<int>, puts: seq<int>)

  /** Number of slots that hold `id`. */
  function Refs(slots: seq<Option<FileId>>, id: FileId): nat {
    if slots == [] then 0
    else (if slots[0] == Some(id) then 1 else 0) + Refs(slots[1..], id)
  }

  /** Reference count of `id`, 0 once the record is destroyed. */
  function RefCount(s: State, id: FileId): nat {
    if id in s.files then s.files[id].refcount else 0
  }

  /**
   * The table owns one reference unit per slot that holds a record: every
   * non-NULL slot names a live record, every live record has a positive
   * count at least the number of slots here that hold it (further units
   * belong to other tables), and ids are below the allocation counter.
   */
  ghost predicate Valid(s: State) {
    |s.slots| == OPEN_MAX &&
    (forall i :: 0 <= i < |s.slots| && s.slots[i].Some? ==> s.slots[i].value in s.files) &&
    (forall id :: id in s.files ==>
       id < s.next && 1 <= s.files[id].refcount && Refs(s.slots, id) <= s.files[id].refcount)
  }

  // ---------------------------------------------------------------------
  // Outcomes of the collaborators and what each is assumed to guarantee.

  /** Outcome of copyinstr, openfile_open or filetable_get. */
  datatype Step = Pass | Fail(err: Errno)

  /** Outcome of filetable_place: the slot it chose, or its error. */
  datatype PlaceOutcome = Placed(fd: nat) | PlaceFailed(err: Errno)

  /** Outcome of VOP_READ / VOP_WRITE: the uio's residual count, or an error. */
  datatype TransferOutcome = Transferred(resid: nat) | TransferFailed(err: Errno)

  /** filetable_okfd accepts only an in-range fd, and accepts every fd whose slot is occupied. */
  predicate OkFdAllowed(s: State, fd: int, ok: bool) {
    (ok ==> 0 <= fd < |s.slots|) &&
    (0 <= fd < |s.slots| && s.slots[fd].Some? ==> ok)
  }

  /** filetable_get can only succeed on an occupied slot (it returns the occupant). */
  predicate GetAllowed(s: State, fd: int, o: Step) {
    o.Pass? ==> 0 <= fd < |s.slots| && s.slots[fd].Some?
  }

  /** filetable_place can only choose an in-range empty slot. */
  predicate PlaceAllowed(s: State, o: PlaceOutcome) {
    o.Placed? ==> o.fd < |s.slots| && s.slots[o.fd].None?
  }

  /** A transfer never leaves more than `size` bytes outstanding. */
  predicate TransferAllowed(size: Size, o: TransferOutcome) {
    o.Transferred? ==> o.resid <= size
  }

  // ---------------------------------------------------------------------
  // State changes made by the collaborators.

  /** openfile_open's new record: offset 0, one reference, id `next`. */
  function NewFile(s: State, mode: AccMode): State {
    s.(files := s.files[s.next := OpenFile(mode, 0, 1)], next := s.next + 1)
  }

  /** filetable_place / filetable_placeat: slot `fd` now holds `v`. */
  function SetSlot(s: State, fd: nat, v: Option<FileId>): State
    requires fd < |s.slots|
  {
    s.(slots := s.slots[fd := v])
  }

  /** openfile_decref: one reference less; the record is destroyed at zero. */
  function DropRef(s: State, id: FileId): State
    requires id in s.files
  {
    var f := s.files[id];
    if f.refcount <= 1 then s.(files := s.files - {id})
    else s.(files := s.files[id := f.(refcount := f.refcount - 1)])
  }

  // ---------------------------------------------------------------------
  // Slot counting.

  /** Overwriting one slot changes the count of the old occupant and the new one by one. */
  lemma {:induction false} RefsSet(slots: seq<Option<FileId>>, i: nat, v: Option<FileId>, id: FileId)
    requires i < |slots|
    ensures Refs(slots[i := v], id)
         == Refs(slots, id) - (if slots[i] == Some(id) then 1 else 0) + (if v == Some(id) then 1 else 0)
  {
    if i == 0 {
      assert slots[i := v][1..] == slots[1..];
    } else {
      assert slots[i := v][1..] == slots[1..][i - 1 := v];
      RefsSet(slots[1..], i - 1, v, id);
    }
  }

  /** No slot holds `id` exactly when its count is zero. */
  lemma {:induction false} RefsZero(slots: seq<Option<FileId>>, id: FileId)
    ensures Refs(slots, id) == 0 <==> forall i :: 0 <= i < |slots| ==> slots[i] != Some(id)
  {
    if slots != [] {
      RefsZero(slots[1..], id);
      assert forall i :: 1 <= i < |slots| ==> slots[i] == slots[1..][i - 1];
    }
  }

  // ---------------------------------------------------------------------
  // Each collaborator step keeps the ownership invariant.

  /** A new record is live with one reference and no slot holding it yet. */
  lemma NewFileKeepsValid(s: State, mode: AccMode)
    requires Valid(s)
    ensures Valid(NewFile(s, mode))
    ensures Refs(NewFile(s, mode).slots, s.next) == 0
  {
    RefsZero(s.slots, s.next);
  }

  /** Storing a record whose count has a unit no slot here accounts for. */
  lemma SetSlotKeepsValid(s: State, fd: nat, v: Option<FileId>)
    requires Valid(s) && fd < |s.slots|
    requires v.Some? ==> v.value in s.files && Refs(s.slots, v.value) < s.files[v.value].refcount
    ensures Valid(SetSlot(s, fd, v))
    ensures s.slots[fd].Some? && s.slots[fd] != v ==>
              Refs(SetSlot(s, fd, v).slots, s.slots[fd].value) < s.files[s.slots[fd].value].refcount
  {
    forall id | id in s.files
      ensures Refs(s.slots[fd := v], id) <= s.files[id].refcount
    {
      RefsSet(s.slots, fd, v, id);
    }
    if s.slots[fd].Some? {
      RefsSet(s.slots, fd, v, s.slots[fd].value);
    }
  }

  /** Dropping a unit that no slot here accounts for. */
  lemma DropRefKeepsValid(s: State, id: FileId)
    requires Valid(s) && id in s.files && Refs(s.slots, id) < s.files[id].refcount
    ensures Valid(DropRef(s, id))
  {
    if s.files[id].refcount <= 1 {
      RefsZero(s.slots, id);
    }
  }
}
