/** The file descriptor pool: what open, close, ioctl and fcntl do to it, as functions on
    its contents. */
module FdPool {
  const MAX_FD: nat := 32

  const EXCL: bv32 := 0x8000_0000
  const DEV: bv32 := 0x4000_0000
  const FLAGS_MASK: bv32 := 0xC000_0000
  const SETTABLE: bv32 := 0x4008

  /** A registered device or filesystem. The two kinds sit in different lists. */
  datatype Dev = NoDev | Device(id: nat) | FileSystem(id: nat)

  datatype Fd = Fd(dev: Dev, flags: bv32)

  datatype Pool = Pool(list: seq<Fd>, maxFd: int)

  datatype Errno = ENODEV | EMFILE | EACCES | ENOTTY | EINVAL | EBADFD | FromDriver(code: int)

  datatype Reply = Ok(value: int) | Bits(bits: bv32) | Err(errno: Errno)

  /** A driver callback: missing, or the status it returns. */
  datatype Callback = Missing | Returns(status: int)
  {
    function Status(): int {
      if Missing? then 0 else status
    }
  }

  const FREE: Fd := Fd(NoDev, 0)
  const DEV_NULL: Dev := Device(0)

  predicate Locked(f: Fd) {
    f.flags & EXCL != 0
  }

  function WithLock(f: Fd): Fd {
    f.(flags := f.flags | EXCL)
  }

  function WithoutLock(f: Fd): Fd {
    f.(flags := f.flags & !EXCL)
  }

  function Cleared(f: Fd): Fd {
    f.(flags := f.flags & !SETTABLE)
  }

  function Raised(f: Fd, flags: bv32): Fd {
    f.(flags := f.flags | (flags & SETTABLE))
  }

  /** What fcntl may set: the append and the non-blocking flag. */
  function WithFlags(f: Fd, flags: bv32): Fd {
    Raised(Cleared(f), flags)
  }

  /** Opened on a device, so that the lock requests are handled here. */
  predicate Lockable(f: Fd) {
    f.flags & DEV != 0
  }

  const BOOT: Pool := Pool(seq(MAX_FD, i => if i <= 2 then Fd(DEV_NULL, 0) else FREE), -1)

  // ------------------------------------------------------------- the operations

  function LowestFree(list: seq<Fd>, i: nat): (k: nat)
    requires i <= |list|
    ensures i <= k <= |list|
    ensures forall j | i <= j < k :: list[j].dev != NoDev
    ensures k < |list| ==> list[k].dev == NoDev
    decreases |list| - i
  {
    if i == |list| || list[i].dev == NoDev then i else LowestFree(list, i + 1)
  }

  predicate Shape(p: Pool) {
    |p.list| == MAX_FD && -1 <= p.maxFd < MAX_FD
  }

  /** The pool with slot k rebound; slots above the highwater mark raise it. */
  function Bind(p: Pool, k: nat, fd: Fd): Pool
    requires k < |p.list|
  {
    Pool(p.list[k := fd], if k > p.maxFd then k else p.maxFd)
  }

  function Set(p: Pool, k: nat, fd: Fd): Pool
    requires k < |p.list|
  {
    p.(list := p.list[k := fd])
  }

  function Release(p: Pool, fd: int): Pool
    requires fd < |p.list|
  {
    if fd > 2 then Set(p, fd, FREE) else p
  }

  /** The test open makes on the slot it has just bound. */
  predicate LockedElsewhere(p: Pool, k: nat)
    requires k < |p.list|
  {
    exists i | 0 <= i < |p.list| && i <= p.maxFd :: p.list[i].dev == p.list[k].dev && Locked(p.list[i]) && i != k
  }

  function MarksCleared(flags: bv32): bv32 {
    flags & !FLAGS_MASK
  }

  function DeviceMarked(flags: bv32): bv32 {
    flags | DEV
  }

  function NewFlags(dev: Dev, flags: bv32): bv32 {
    if dev.Device? then DeviceMarked(MarksCleared(flags)) else MarksCleared(flags)
  }

  function Open(p: Pool, dev: Dev, flags: bv32, driver: Callback): (Pool, Reply)
    requires Shape(p)
  {
    var k := LowestFree(p.list, 0);
    if dev == NoDev then (p, Err(ENODEV))
    else if k == MAX_FD then (p, Err(EMFILE))
    else
      var p' := Bind(p, k, Fd(dev, NewFlags(dev, flags)));
      if dev.Device? && LockedElsewhere(p', k) then (Release(p', k), Err(EACCES))
      else if driver.Status() < 0 then (Release(p', k), Err(FromDriver(-driver.Status())))
      else (p', Ok(k))
  }

  function Close(p: Pool, fd: int, driver: Callback): (Pool, Reply)
    requires fd < |p.list|
  {
    if fd < 0 then (p, Err(EBADFD))
    else (Release(p, fd), if driver.Status() < 0 then Err(FromDriver(-driver.Status())) else Ok(0))
  }

  /** The grant looks below the highwater mark only, not at it. */
  predicate SharedBelow(p: Pool, k: nat)
    requires k < |p.list|
  {
    exists i | 0 <= i < |p.list| && i < p.maxFd :: i != k && p.list[i].dev == p.list[k].dev
  }

  function Lock(p: Pool, k: nat): (Pool, Reply)
    requires k < |p.list|
  {
    if SharedBelow(p, k) then (p, Err(EACCES))
    else (Set(p, k, WithLock(p.list[k])), Ok(0))
  }

  function Unlock(p: Pool, k: nat): Pool
    requires k < |p.list|
  {
    Set(p, k, WithoutLock(p.list[k]))
  }

  datatype Request = Tiocexcl | Tiocnxcl | OtherRequest

  function Ioctl(p: Pool, fd: int, req: Request, driver: Callback): (Pool, Reply)
    requires fd < |p.list|
  {
    if fd < 0 then (p, Err(EBADFD))
    else if Lockable(p.list[fd]) && req == Tiocexcl then Lock(p, fd)
    else if Lockable(p.list[fd]) && req == Tiocnxcl then (Unlock(p, fd), Ok(0))
    else if driver.Missing? then (p, Err(ENOTTY))
    else if driver.status < 0 then (p, Err(FromDriver(-driver.status)))
    else (p, Ok(driver.status))
  }

  datatype Command = GetFl | SetFl(flags: bv32) | OtherCommand

  function Fcntl(p: Pool, fd: int, cmd: Command): (Pool, Reply)
    requires fd < |p.list|
  {
    if fd < 0 then (p, Err(EBADFD))
    else
      match cmd
      case GetFl => (p, Bits(MarksCleared(p.list[fd].flags)))
      case SetFl(flags) =>
        (Set(p, fd, WithFlags(p.list[fd], flags)), Ok(0))
      case OtherCommand => (p, Err(EINVAL))
  }

  /** Opens a descriptor and moves what it got into the given slot, if it got anything. */
  function OpenInto(p: Pool, target: nat, dev: Dev, flags: bv32, driver: Callback): (p': Pool)
    requires Shape(p) && target <= 2
    ensures Shape(p')
  {
    var (p', r) := Open(p, dev, flags, driver);
    if r.Ok? && 0 <= r.value < MAX_FD then Release(Set(p', target, p'.list[r.value]), r.value) else p'
  }

  // ------------------------------------------------------------- the invariant

  /** The standard descriptors are never free, no descriptor above them is open past the
      highwater mark, and only device descriptors carry lock flags. */
  ghost predicate Inv(p: Pool) {
    && Shape(p)
    && (forall i | 0 <= i <= 2 :: p.list[i].dev != NoDev)
    && (forall i | 2 < i < MAX_FD :: p.list[i].dev != NoDev ==> i <= p.maxFd)
    && (forall i | 0 <= i < MAX_FD :: Lockable(p.list[i]) ==> p.list[i].dev.Device? && 2 < p.maxFd)
    && (forall i | 0 <= i < MAX_FD :: Locked(p.list[i]) ==> Lockable(p.list[i]))
  }

  ghost function Allocated(p: Pool): set<nat> {
    set i: nat | i < |p.list| && p.list[i].dev != NoDev
  }

  lemma BootInv()
    ensures Inv(BOOT) && Allocated(BOOT) == {0, 1, 2}
  {
    FreeFlags();
  }

  lemma FreeFlags()
    ensures !Locked(FREE) && !Lockable(FREE) && !Locked(Fd(DEV_NULL, 0)) && !Lockable(Fd(DEV_NULL, 0))
  {
  }

  lemma NewFlagsMarked(dev: Dev, flags: bv32)
    ensures !Locked(Fd(dev, NewFlags(dev, flags)))
    ensures Lockable(Fd(dev, NewFlags(dev, flags))) <==> dev.Device?
  {
  }

  /** What fcntl may change: neither of the two marks. */
  lemma SetFlKeepsMarks(f: Fd, flags: bv32)
    ensures WithFlags(f, flags).dev == f.dev
    ensures Locked(WithFlags(f, flags)) <==> Locked(f)
    ensures Lockable(WithFlags(f, flags)) <==> Lockable(f)
  {
  }

  lemma LockMarks(f: Fd)
    ensures WithLock(f).dev == f.dev && Locked(WithLock(f))
    ensures Lockable(WithLock(f)) <==> Lockable(f)
  {
  }

  lemma UnlockMarks(f: Fd)
    ensures WithoutLock(f).dev == f.dev && !Locked(WithoutLock(f))
    ensures Lockable(WithoutLock(f)) <==> Lockable(f)
  {
  }

  /** Rebinding one slot keeps the invariant if the new descriptor meets it. */
  lemma SetInv(p: Pool, k: nat, fd: Fd)
    requires Inv(p) && k < MAX_FD
    requires k <= 2 ==> fd.dev != NoDev
    requires 2 < k && fd.dev != NoDev ==> k <= p.maxFd
    requires Lockable(fd) ==> fd.dev.Device? && 2 < p.maxFd
    requires Locked(fd) ==> Lockable(fd)
    ensures Inv(Set(p, k, fd))
  {
  }

  ghost predicate LockedSomewhere(p: Pool, dev: Dev) {
    exists i | 0 <= i < |p.list| :: p.list[i].dev == dev && Locked(p.list[i])
  }

  /** The test stops at the highwater mark, but no open descriptor is past it. */
  lemma LockTestExact(p: Pool, k: nat, fd: Fd)
    requires Inv(p) && k < MAX_FD && p.list[k].dev == NoDev && fd.dev != NoDev
    ensures LockedElsewhere(Bind(p, k, fd), k) <==> LockedSomewhere(p, fd.dev)
  {
    hide Locked, Lockable;
    if LockedSomewhere(p, fd.dev) {
      var i :| 0 <= i < |p.list| && p.list[i].dev == fd.dev && Locked(p.list[i]);
      assert Bind(p, k, fd).list[i] == p.list[i];
    }
  }

  ghost predicate HasFree(p: Pool) {
    exists k | 0 <= k < |p.list| :: p.list[k].dev == NoDev
  }

  /** Open succeeds exactly if it finds a device, a slot is free, no descriptor holds the
      device locked, and the driver agrees; filesystems are not tested for locks. */
  lemma OpenSucceeds(p: Pool, dev: Dev, flags: bv32, driver: Callback)
    requires Inv(p)
    ensures Open(p, dev, flags, driver).1.Ok?
       <==> && dev != NoDev && HasFree(p) && driver.Status() >= 0
            && !(dev.Device? && LockedSomewhere(p, dev))
  {
    var k := LowestFree(p.list, 0);
    if dev != NoDev && k < MAX_FD {
      LockTestExact(p, k, Fd(dev, NewFlags(dev, flags)));
    }
    hide Locked, Lockable, NewFlags, LockedElsewhere, LockedSomewhere;
  }

  /** A successful open binds the lowest free slot to the device, and nothing else. */
  lemma OpenBinds(p: Pool, dev: Dev, flags: bv32, driver: Callback)
    requires Inv(p) && Open(p, dev, flags, driver).1.Ok?
    ensures var (p', r) := Open(p, dev, flags, driver);
            && 2 < r.value < MAX_FD && p.list[r.value].dev == NoDev
            && (forall i | 0 <= i < r.value :: p.list[i].dev != NoDev)
            && p'.list == p.list[r.value := p'.list[r.value]]
            && p'.list[r.value].dev == dev
            && p'.list[r.value].flags & !FLAGS_MASK == flags & !FLAGS_MASK
            && !Locked(p'.list[r.value]) && (Lockable(p'.list[r.value]) <==> dev.Device?)
  {
    NewFlagsMarked(dev, flags);
    NewFlagsOwn(dev, flags);
    hide Locked, Lockable, NewFlags, LockedElsewhere;
  }

  lemma NewFlagsOwn(dev: Dev, flags: bv32)
    ensures NewFlags(dev, flags) & !FLAGS_MASK == flags & !FLAGS_MASK
  {
  }

  /** A failed open leaves every descriptor as it was, but that it may clear the flags of
      the free slot it tried. */
  lemma OpenFails(p: Pool, dev: Dev, flags: bv32, driver: Callback)
    requires Inv(p) && !Open(p, dev, flags, driver).1.Ok?
    ensures Allocated(Open(p, dev, flags, driver).0) == Allocated(p)
    ensures forall i | 0 <= i < MAX_FD :: var f := Open(p, dev, flags, driver).0.list[i];
              f == p.list[i] || (p.list[i].dev == NoDev && f == FREE)
  {
    hide Locked, Lockable, NewFlags, LockedElsewhere;
  }

  lemma OpenInv(p: Pool, dev: Dev, flags: bv32, driver: Callback)
    requires Inv(p)
    ensures Inv(Open(p, dev, flags, driver).0)
  {
    var k := LowestFree(p.list, 0);
    if dev != NoDev && k < MAX_FD {
      NewFlagsMarked(dev, flags);
      FreeFlags();
      hide Locked, Lockable, NewFlags, LockedElsewhere;
      var raised := Pool(p.list, if k > p.maxFd then k else p.maxFd);
      assert Inv(raised);
      SetInv(raised, k, Fd(dev, NewFlags(dev, flags)));
      SetInv(raised, k, FREE);
      var p' := Bind(p, k, Fd(dev, NewFlags(dev, flags)));
      assert Release(p', k).list == raised.list[k := FREE];
    }
  }

  // ------------------------------------------------------------- whole runs

  datatype Op =
    | CallOpen(dev: Dev, flags: bv32, driver: Callback)
    | CallClose(fd: int, driver: Callback)
    | CallIoctl(fd: int, req: Request, driver: Callback)
    | CallFcntl(fd: int, cmd: Command)

  /** What the calls require: an index in the table, and for close and ioctl, which call
      through the device, an open descriptor. Negative indices are always handled. */
  predicate Permitted(p: Pool, op: Op) {
    match op
    case CallOpen(_, _, _) => true
    case CallClose(fd, _) => fd < |p.list| && (0 <= fd ==> p.list[fd].dev != NoDev)
    case CallIoctl(fd, _, _) => fd < |p.list| && (0 <= fd ==> p.list[fd].dev != NoDev)
    case CallFcntl(fd, _) => fd < |p.list|
  }

  function Step(p: Pool, op: Op): (Pool, Reply)
    requires Shape(p) && Permitted(p, op)
  {
    match op
    case CallOpen(dev, flags, driver) => Open(p, dev, flags, driver)
    case CallClose(fd, driver) => Close(p, fd, driver)
    case CallIoctl(fd, req, driver) => Ioctl(p, fd, req, driver)
    case CallFcntl(fd, cmd) => Fcntl(p, fd, cmd)
  }

  lemma IoctlInv(p: Pool, fd: nat, req: Request, driver: Callback)
    requires Inv(p) && fd < MAX_FD && p.list[fd].dev != NoDev
    ensures Inv(Ioctl(p, fd, req, driver).0)
  {
    LockMarks(p.list[fd]);
    UnlockMarks(p.list[fd]);
    hide Locked, Lockable, WithLock, WithoutLock, WithLock, WithoutLock, Inv, SharedBelow;
    OpenMarks(p, fd);
    if Lockable(p.list[fd]) {
      SetInv(p, fd, WithLock(p.list[fd]));
      SetInv(p, fd, WithoutLock(p.list[fd]));
    }
  }

  lemma FcntlInv(p: Pool, fd: nat, cmd: Command)
    requires Inv(p) && fd < MAX_FD
    ensures Inv(Fcntl(p, fd, cmd).0)
  {
    if cmd.SetFl? {
      SetFlKeepsMarks(p.list[fd], cmd.flags);
      hide Locked, Lockable, WithFlags, Inv;
      OpenMarks(p, fd);
      SetInv(p, fd, WithFlags(p.list[fd], cmd.flags));
    }
  }

  lemma OpenMarks(p: Pool, k: nat)
    requires Inv(p) && k < MAX_FD
    ensures |p.list| == MAX_FD
    ensures k <= 2 ==> p.list[k].dev != NoDev
    ensures 2 < k && p.list[k].dev != NoDev ==> k <= p.maxFd
    ensures Lockable(p.list[k]) ==> p.list[k].dev.Device? && 2 < p.maxFd
    ensures Locked(p.list[k]) ==> Lockable(p.list[k])
  {
  }

  lemma ReleaseInv(p: Pool, fd: int)
    requires Inv(p) && fd < MAX_FD
    ensures Inv(Release(p, fd))
  {
    FreeFlags();
    hide Locked, Lockable;
    if fd > 2 {
      SetInv(p, fd, FREE);
    }
  }

  lemma StepInv(p: Pool, op: Op)
    requires Inv(p) && Permitted(p, op)
    ensures Inv(Step(p, op).0)
  {
    hide Open, Ioctl, Fcntl, Release;
    match op {
      case CallOpen(dev, flags, driver) =>
        OpenInv(p, dev, flags, driver);
      case CallClose(fd, driver) =>
        ReleaseInv(p, fd);
      case CallIoctl(fd, req, driver) =>
        if 0 <= fd {
          IoctlInv(p, fd, req, driver);
        } else {
          BadIndex(p, op);
        }
      case CallFcntl(fd, cmd) =>
        if 0 <= fd {
          FcntlInv(p, fd, cmd);
        } else {
          BadIndex(p, op);
        }
    }
  }

  /** A negative descriptor, as a failed open returns, is refused and changes nothing. */
  lemma BadIndex(p: Pool, op: Op)
    requires Shape(p) && !op.CallOpen? && op.fd < 0
    ensures Step(p, op) == (p, Err(EBADFD))
  {
  }

  // ------------------------------------------------------------- each call, in full

  /** An open that finds nothing under the name, or no free slot, changes nothing. */
  lemma OpenRefused(p: Pool, dev: Dev, flags: bv32, driver: Callback)
    requires Shape(p) && (dev == NoDev || forall i | 0 <= i < MAX_FD :: p.list[i].dev != NoDev)
    ensures Step(p, CallOpen(dev, flags, driver)) == (p, Err(if dev == NoDev then ENODEV else EMFILE))
  {
    hide Locked, NewFlags;
  }

  /** Any other open tries the lowest free slot k. A locked device refuses it first and the
      driver next, and then the slot is left free and clear; otherwise it holds the device,
      the flags asked for without the two marks, and for a device the device mark. */
  lemma OpenExact(p: Pool, k: nat, dev: Dev, flags: bv32, driver: Callback)
    requires Inv(p) && dev != NoDev
    requires k < MAX_FD && p.list[k].dev == NoDev && forall i | 0 <= i < k :: p.list[i].dev != NoDev
    ensures var (p', r) := Step(p, CallOpen(dev, flags, driver));
            && r == (if dev.Device? && exists i | 0 <= i < 32 :: p.list[i].dev == dev && p.list[i].flags & 0x8000_0000 != 0
                     then Err(EACCES)
                     else if driver.Returns? && driver.status < 0 then Err(FromDriver(-driver.status))
                     else Ok(k))
            && p'.maxFd == (if k > p.maxFd then k else p.maxFd)
            && p'.list == p.list[k := if r.Ok?
                                      then Fd(dev, if dev.Device? then OnDevice(flags) else Unmarked(flags))
                                      else Fd(NoDev, 0)]
  {
    var fd := Fd(dev, NewFlags(dev, flags));
    LowestFreeIs(p.list, k);
    LockTestExact(p, k, fd);
    NewFlagsExact(dev, flags);
    LockMarkExact(p, dev);
    FreeAboveStandard(p, k);
    hide Locked, Lockable, NewFlags, LockedElsewhere, LockedSomewhere, LowestFree, OnDevice, Unmarked;
  }

  lemma FreeAboveStandard(p: Pool, k: nat)
    requires Inv(p) && k < MAX_FD && p.list[k].dev == NoDev
    ensures k > 2
  {
  }

  /** A flag word without the lock mark and the device mark. */
  function Unmarked(word: bv32): bv32 {
    word & 0x3fff_ffff
  }

  /** The flag word of a descriptor opened on a device. */
  function OnDevice(word: bv32): bv32 {
    (word & 0x3fff_ffff) | 0x4000_0000
  }

  lemma NewFlagsExact(dev: Dev, flags: bv32)
    ensures NewFlags(dev, flags) == if dev.Device? then OnDevice(flags) else Unmarked(flags)
  {
    if dev.Device? {
      MarkedWord(flags);
    } else {
      UnmarkedWord(flags);
    }
    hide OnDevice, Unmarked, MarksCleared, DeviceMarked;
  }

  lemma MarkedWord(flags: bv32)
    ensures DeviceMarked(MarksCleared(flags)) == OnDevice(flags)
  {
  }

  lemma UnmarkedWord(flags: bv32)
    ensures MarksCleared(flags) == Unmarked(flags)
  {
  }

  lemma Complements()
    ensures !FLAGS_MASK == 0x3fff_ffff && !EXCL == 0x7fff_ffff && !SETTABLE == 0xffff_bff7
  {
  }

  lemma LockMarkExact(p: Pool, dev: Dev)
    requires Shape(p)
    ensures LockedSomewhere(p, dev)
       <==> exists i | 0 <= i < 32 :: p.list[i].dev == dev && p.list[i].flags & 0x8000_0000 != 0
  {
  }

  /** Closing gives back every descriptor but the standard ones, whatever the driver
      answers, and touches no other. */
  lemma CloseFrees(p: Pool, fd: nat, driver: Callback)
    requires Shape(p) && Permitted(p, CallClose(fd, driver))
    ensures var (p', r) := Step(p, CallClose(fd, driver));
            && |p'.list| == |p.list| && p'.maxFd == p.maxFd
            && (fd > 2 ==> p'.list[fd].dev == NoDev && p'.list[fd].flags == 0)
            && (forall i | 0 <= i < |p.list| && i != fd :: p'.list[i] == p.list[i])
            && (fd <= 2 ==> p' == p)
            && Allocated(p') == Allocated(p) - (if fd > 2 then {fd} else {})
            && r == (if driver.Returns? && driver.status < 0 then Err(FromDriver(-driver.status)) else Ok(0))
  {
  }

  /** A lock request on a device is granted exactly if no other slot below the highwater
      mark holds the device, and sets the holder's mark only. */
  lemma LockExact(p: Pool, h: nat, driver: Callback)
    requires Shape(p) && h < MAX_FD && p.list[h].dev != NoDev && p.list[h].flags & 0x4000_0000 != 0
    ensures var (p', r) := Step(p, CallIoctl(h, Tiocexcl, driver));
            if exists i | 0 <= i < p.maxFd :: i != h && p.list[i].dev == p.list[h].dev
            then p' == p && r == Err(EACCES)
            else p' == Pool(p.list[h := Fd(p.list[h].dev, p.list[h].flags | 0x8000_0000)], p.maxFd) && r == Ok(0)
  {
    assert Lockable(p.list[h]);
    assert WithLock(p.list[h]) == Fd(p.list[h].dev, p.list[h].flags | 0x8000_0000);
    hide Lockable, WithLock;
  }

  /** An unlock clears the mark of that descriptor only. */
  lemma UnlockExact(p: Pool, h: nat, driver: Callback)
    requires Shape(p) && h < MAX_FD && p.list[h].dev != NoDev && p.list[h].flags & 0x4000_0000 != 0
    ensures Step(p, CallIoctl(h, Tiocnxcl, driver))
         == (Pool(p.list[h := Fd(p.list[h].dev, p.list[h].flags & 0x7fff_ffff)], p.maxFd), Ok(0))
  {
    assert Lockable(p.list[h]);
    assert WithoutLock(p.list[h]) == Fd(p.list[h].dev, p.list[h].flags & 0x7fff_ffff);
    hide Lockable, WithoutLock;
  }

  /** Every other request, and every request on a filesystem, is the driver's. */
  lemma IoctlPassedOn(p: Pool, fd: nat, req: Request, driver: Callback)
    requires Shape(p) && Permitted(p, CallIoctl(fd, req, driver))
    requires req == OtherRequest || p.list[fd].flags & 0x4000_0000 == 0
    ensures Step(p, CallIoctl(fd, req, driver))
         == (p, match driver
                case Missing => Err(ENOTTY)
                case Returns(status) => if status < 0 then Err(FromDriver(-status)) else Ok(status))
  {
    assert p.list[fd].flags & 0x4000_0000 == 0 ==> !Lockable(p.list[fd]);
    hide Lockable, Lock, Unlock;
  }

  /** The flag word with the append and the non-blocking flag (0x4008) as asked for. */
  function Kept(word: bv32, flags: bv32): bv32 {
    (word & 0xffff_bff7) | (flags & 0x4008)
  }

  /** The same without the two marks. */
  function Shown(word: bv32, flags: bv32): bv32 {
    (word & 0x3fff_bff7) | (flags & 0x4008)
  }

  /** F_SETFL changes the append and the non-blocking flag of that descriptor to those asked
      for, and nothing else; and F_GETFL then shows them, and never the two marks. */
  lemma SetThenGet(p: Pool, fd: nat, flags: bv32)
    requires Shape(p) && fd < MAX_FD
    ensures var p' := Set(p, fd, Fd(p.list[fd].dev, Kept(p.list[fd].flags, flags)));
            && Fcntl(p, fd, SetFl(flags)) == (p', Ok(0))
            && Fcntl(p', fd, GetFl) == (p', Bits(Shown(p.list[fd].flags, flags)))
  {
    hide WithFlags, Kept, Shown, Unmarked, Fcntl;
    SetFlSets(p, fd, flags);
    ShownBits(p.list[fd].flags, flags);
    GetFlShows(Set(p, fd, Fd(p.list[fd].dev, Kept(p.list[fd].flags, flags))), fd);
  }

  lemma SetFlSets(p: Pool, fd: nat, flags: bv32)
    requires Shape(p) && fd < MAX_FD
    ensures Fcntl(p, fd, SetFl(flags)) == (Set(p, fd, Fd(p.list[fd].dev, Kept(p.list[fd].flags, flags))), Ok(0))
  {
    hide WithFlags, Kept;
    SetFlBits(p.list[fd], flags);
  }

  lemma SetFlBits(f: Fd, flags: bv32)
    ensures WithFlags(f, flags) == Fd(f.dev, Kept(f.flags, flags))
  {
    hide WithFlags, Kept;
    SetFlWord(f, flags);
  }

  lemma SetFlWord(f: Fd, flags: bv32)
    ensures WithFlags(f, flags).dev == f.dev
    ensures WithFlags(f, flags).flags == Kept(f.flags, flags)
  {
    Complements();
  }

  /** F_GETFL shows all flags but the two marks. */
  lemma GetFlShows(p: Pool, fd: nat)
    requires Shape(p) && fd < MAX_FD
    ensures Fcntl(p, fd, GetFl) == (p, Bits(Unmarked(p.list[fd].flags)))
  {
    UnmarkedWord(p.list[fd].flags);
    hide Unmarked, MarksCleared;
  }

  lemma ShownBits(word: bv32, flags: bv32)
    ensures Unmarked(Kept(word, flags)) == Shown(word, flags)
  {
  }

  /** A command that is neither is refused. */
  lemma FcntlElse(p: Pool, fd: nat)
    requires Shape(p) && fd < MAX_FD
    ensures Step(p, CallFcntl(fd, OtherCommand)) == (p, Err(EINVAL))
  {
  }

  ghost predicate Legal(p: Pool, ops: seq<Op>)
    decreases |ops|
  {
    ops == [] || (Shape(p) && Permitted(p, ops[0]) && Legal(Step(p, ops[0]).0, ops[1..]))
  }

  ghost function Run(p: Pool, ops: seq<Op>): Pool
    requires Legal(p, ops)
    decreases |ops|
  {
    if ops == [] then p else Run(Step(p, ops[0]).0, ops[1..])
  }

  lemma {:induction false} RunInv(p: Pool, ops: seq<Op>)
    requires Inv(p) && Legal(p, ops)
    ensures Inv(Run(p, ops))
    decreases |ops|
  {
    hide Inv, Step, Permitted;
    if ops != [] {
      StepInv(p, ops[0]);
      RunInv(Step(p, ops[0]).0, ops[1..]);
    }
  }

  /** What a call and its reply say is open then: an open adds what it returns, a close
      takes away its descriptor unless that is a standard one. */
  ghost function HeldAfter(open: set<nat>, op: Op, r: Reply): set<nat> {
    if op.CallOpen? && r.Ok? && r.value >= 0 then open + {r.value}
    else if op.CallClose? && op.fd > 2 then open - {op.fd}
    else open
  }

  ghost function Held(open: set<nat>, p: Pool, ops: seq<Op>): set<nat>
    requires Legal(p, ops)
    decreases |ops|
  {
    if ops == [] then open
    else Held(HeldAfter(open, ops[0], Step(p, ops[0]).1), Step(p, ops[0]).0, ops[1..])
  }

  lemma StepHeld(p: Pool, op: Op)
    requires Inv(p) && Permitted(p, op)
    ensures Allocated(Step(p, op).0) == HeldAfter(Allocated(p), op, Step(p, op).1)
  {
    match op {
      case CallOpen(dev, flags, driver) =>
        if Open(p, dev, flags, driver).1.Ok? {
          OpenBinds(p, dev, flags, driver);
        } else {
          OpenFails(p, dev, flags, driver);
        }
        hide Open, Locked, Lockable;
      case CallClose(fd, driver) =>
        hide Locked, Lockable;
      case CallIoctl(fd, req, driver) =>
        hide Locked, Lockable;
      case CallFcntl(fd, cmd) =>
        if fd >= 0 && cmd.SetFl? {
          SetFlKeepsMarks(p.list[fd], cmd.flags);
        }
        hide WithFlags, Locked, Lockable;
    }
  }

  /** No descriptor is lost or forged: after any run exactly those are allocated that the
      replies say are open. */
  lemma {:induction false} RunHeld(p: Pool, ops: seq<Op>)
    requires Inv(p) && Legal(p, ops)
    ensures Allocated(Run(p, ops)) == Held(Allocated(p), p, ops)
    decreases |ops|
  {
    hide Inv, Step, Permitted, Allocated, HeldAfter;
    if ops != [] {
      StepInv(p, ops[0]);
      StepHeld(p, ops[0]);
      RunHeld(Step(p, ops[0]).0, ops[1..]);
    }
  }

  // ------------------------------------------------------------- redirection at start-up

  /** The slot an open got goes back to the pool, so redirection leaves the same slots
      allocated; the target changes only if the open succeeded. */
  lemma OpenIntoKeeps(p: Pool, target: nat, dev: Dev, flags: bv32, driver: Callback)
    requires Inv(p) && target <= 2
    ensures Inv(OpenInto(p, target, dev, flags, driver))
    ensures Allocated(OpenInto(p, target, dev, flags, driver)) == Allocated(p)
    ensures OpenInto(p, target, dev, flags, driver).list[target].dev
         == if Open(p, dev, flags, driver).1.Ok? then dev else p.list[target].dev
    ensures forall i | 0 <= i <= 2 && i != target :: OpenInto(p, target, dev, flags, driver).list[i] == p.list[i]
  {
    var (p', r) := Open(p, dev, flags, driver);
    OpenInv(p, dev, flags, driver);
    if r.Ok? {
      OpenBinds(p, dev, flags, driver);
      FreeFlags();
      hide Locked, Lockable, Open;
      SetInv(p', target, p'.list[r.value]);
      SetInv(Set(p', target, p'.list[r.value]), r.value, FREE);
    } else {
      OpenFails(p, dev, flags, driver);
    }
  }

  /** alt_io_redirect: standard output, then input, then error. */
  function Redirect(p: Pool, devs: seq<Dev>, drivers: seq<Callback>): Pool
    requires Shape(p) && |devs| == |drivers| == 3
  {
    var p1 := OpenInto(p, 1, devs[0], 1, drivers[0]);
    var p2 := OpenInto(p1, 0, devs[1], 0, drivers[1]);
    OpenInto(p2, 2, devs[2], 1, drivers[2])
  }

  /** Whatever devices there are and whatever their drivers answer, start-up ends with
      exactly the three standard descriptors allocated. */
  lemma RedirectFromBoot(devs: seq<Dev>, drivers: seq<Callback>)
    requires |devs| == |drivers| == 3
    ensures Inv(BOOT) && Inv(Redirect(BOOT, devs, drivers))
    ensures Allocated(Redirect(BOOT, devs, drivers)) == {0, 1, 2}
  {
    BootInv();
    hide Inv, OpenInto, Allocated;
    OpenIntoKeeps(BOOT, 1, devs[0], 1, drivers[0]);
    var p1 := OpenInto(BOOT, 1, devs[0], 1, drivers[0]);
    OpenIntoKeeps(p1, 0, devs[1], 0, drivers[1]);
    var p2 := OpenInto(p1, 0, devs[1], 0, drivers[1]);
    OpenIntoKeeps(p2, 2, devs[2], 1, drivers[2]);
  }

  /** The table at start-up: nothing is locked, and only the standard descriptors are open. */
  ghost predicate StartingUp(p: Pool) {
    Inv(p) && Allocated(p) == {0, 1, 2} && forall i | 0 <= i < MAX_FD :: !Locked(p.list[i])
  }

  lemma BootStartingUp()
    ensures StartingUp(BOOT)
  {
    BootInv();
    FreeFlags();
  }

  lemma NoLocks(p: Pool, dev: Dev)
    requires StartingUp(p)
    ensures !LockedSomewhere(p, dev) && HasFree(p)
  {
    assert 3 !in Allocated(p);
    hide Locked;
  }

  /** A redirected descriptor holds the device named, open for reading or writing as asked,
      if it was found and its driver agreed, and is as before otherwise. */
  lemma RedirectOne(p: Pool, target: nat, dev: Dev, flags: bv32, driver: Callback)
    requires StartingUp(p) && target <= 2
    ensures var p' := OpenInto(p, target, dev, flags, driver);
            && StartingUp(p')
            && (forall i | 0 <= i <= 2 && i != target :: p'.list[i] == p.list[i])
            && if dev == NoDev || (driver.Returns? && driver.status < 0) then p'.list[target] == p.list[target]
               else p'.list[target].dev == dev && p'.list[target].flags & !FLAGS_MASK == flags & !FLAGS_MASK
  {
    OpenIntoKeeps(p, target, dev, flags, driver);
    OpenSucceeds(p, dev, flags, driver);
    FreeFlags();
    NoLocks(p, dev);
    assert Shape(p);
    hide Locked, Lockable, Open, LockedSomewhere, NewFlags, Inv;
    if Open(p, dev, flags, driver).1.Ok? {
      OpenBinds(p, dev, flags, driver);
    } else {
      OpenFails(p, dev, flags, driver);
    }
  }

  /** From boot: standard output and error are open for writing (1) on the first and the last
      device, standard input for reading (0) on the second, and each stays on the null
      device if its own was not found or refused. */
  lemma RedirectTargets(devs: seq<Dev>, drivers: seq<Callback>)
    requires |devs| == |drivers| == 3
    ensures var list := Redirect(BOOT, devs, drivers).list;
            && |list| == MAX_FD
            && Redirected(list[1], devs[0], 1, drivers[0])
            && Redirected(list[0], devs[1], 0, drivers[1])
            && Redirected(list[2], devs[2], 1, drivers[2])
  {
    BootStartingUp();
    NoMarks();
    RedirectOne(BOOT, 1, devs[0], 1, drivers[0]);
    var p1 := OpenInto(BOOT, 1, devs[0], 1, drivers[0]);
    RedirectOne(p1, 0, devs[1], 0, drivers[1]);
    var p2 := OpenInto(p1, 0, devs[1], 0, drivers[1]);
    RedirectOne(p2, 2, devs[2], 1, drivers[2]);
    hide OpenInto, StartingUp;
  }

  ghost predicate Redirected(f: Fd, dev: Dev, mode: bv32, driver: Callback) {
    if dev == NoDev || (driver.Returns? && driver.status < 0) then f == Fd(Device(0), 0)
    else f.dev == dev && f.flags & 0x3fff_ffff == mode
  }

  lemma NoMarks()
    ensures (1 as bv32) & !FLAGS_MASK == 1 && (0 as bv32) & !FLAGS_MASK == 0 && !FLAGS_MASK == 0x3fff_ffff
  {
  }

  // ------------------------------------------------------------- exclusive access

  ghost predicate Sole(p: Pool, h: nat)
    requires h < |p.list|
  {
    forall i | 0 <= i < |p.list| && i != h :: p.list[i].dev != p.list[h].dev
  }

  /** The holder of a lock is the only open descriptor of its device. */
  ghost predicate Exclusive(p: Pool, h: nat) {
    Inv(p) && h < MAX_FD && p.list[h].dev.Device? && Locked(p.list[h]) && Sole(p, h)
  }

  /** A granted lock is exclusive exactly if the slot at the highwater mark, which the
      grant does not look at, is the holder or holds another device. */
  lemma GrantExclusive(p: Pool, h: nat)
    requires Inv(p) && h < MAX_FD && Lockable(p.list[h])
    requires Lock(p, h).1.Ok?
    ensures Exclusive(Lock(p, h).0, h) <==> p.maxFd == h || p.list[p.maxFd].dev != p.list[h].dev
  {
    var p' := Lock(p, h).0;
    LockMarks(p.list[h]);
    StepInv(p, CallIoctl(h, Tiocexcl, Missing));
    assert Step(p, CallIoctl(h, Tiocexcl, Missing)).0 == p';
    hide Locked, Lockable;
    assert p'.list[h].dev == p.list[h].dev;
    forall i | 0 <= i < MAX_FD && i != h
      ensures p'.list[i] == p.list[i] && (p.list[i].dev == p.list[h].dev ==> i == p.maxFd)
    {
      assert i < p.maxFd ==> p.list[i].dev != p.list[h].dev;
    }
  }

  /** Not every granted lock is: with a device opened twice, the first descriptor can be
      locked while the second stays open. */
  lemma GrantNotExclusive()
    ensures var open := CallOpen(Device(1), 0, Missing);
            var ops := [open, open, CallIoctl(3, Tiocexcl, Missing)];
            && Legal(BOOT, ops)
            && Locked(Run(BOOT, ops).list[3])
            && Run(BOOT, ops).list[3].dev == Run(BOOT, ops).list[4].dev == Device(1)
  {
    var d, fd := Device(1), Fd(Device(1), NewFlags(Device(1), 0));
    var first := CallOpen(d, 0, Missing);
    var p1 := Pool(BOOT.list[3 := fd], 3);
    var p2 := Pool(p1.list[4 := fd], 4);
    NewFlagsMarked(d, 0);
    LockMarks(fd);
    FreeFlags();
    hide Locked, Lockable, NewFlags, WithLock;
    assert forall i | 0 <= i < MAX_FD :: BOOT.list[i] == if i <= 2 then Fd(DEV_NULL, 0) else FREE;
    LowestFreeIs(BOOT.list, 3);
    assert Step(BOOT, first).0 == p1;
    LowestFreeIs(p1.list, 4);
    assert Step(p1, first).0 == p2;
    var third := CallIoctl(3, Tiocexcl, Missing);
    var ops := [first, first, third];
    assert ops[1..] == [first, third] && ops[1..][1..] == [third] && [third][1..] == [];
    assert Step(p2, third).0 == Set(p2, 3, WithLock(fd));
    OneStep(p2, third);
  }

  lemma LowestFreeIs(list: seq<Fd>, k: nat)
    requires k < |list| && list[k].dev == NoDev && forall j | 0 <= j < k :: list[j].dev != NoDev
    ensures LowestFree(list, 0) == k
  {
  }

  lemma OneStep(p: Pool, op: Op)
    requires Shape(p) && Permitted(p, op)
    ensures Legal(p, [op]) && Run(p, [op]) == Step(p, op).0
  {
  }

  /** The calls that end a lock: unlocking it, or closing it unless it is a standard
      descriptor. */
  predicate Ends(op: Op, h: nat) {
    (op.CallIoctl? && op.fd == h && op.req == Tiocnxcl) || (op.CallClose? && op.fd == h && h > 2)
  }

  /** Exclusiveness depends on the devices and the holder's mark. */
  lemma ExclusiveKept(p: Pool, h: nat, p': Pool)
    requires Exclusive(p, h) && Inv(p')
    requires p'.list[h].dev == p.list[h].dev && Locked(p'.list[h])
    requires forall i | 0 <= i < MAX_FD && i != h :: p'.list[i].dev == p.list[i].dev || p'.list[i].dev != p.list[h].dev
    ensures Exclusive(p', h)
  {
  }

  lemma OpenExclusive(p: Pool, h: nat, dev: Dev, flags: bv32, driver: Callback)
    requires Exclusive(p, h)
    ensures Exclusive(Open(p, dev, flags, driver).0, h)
    ensures Open(p, dev, flags, driver).0.list[h].dev == p.list[h].dev
    ensures dev == p.list[h].dev ==> !Open(p, dev, flags, driver).1.Ok?
  {
    hide Locked, Lockable;
    OpenInv(p, dev, flags, driver);
    OpenSucceeds(p, dev, flags, driver);
    if Open(p, dev, flags, driver).1.Ok? {
      OpenBinds(p, dev, flags, driver);
    } else {
      OpenFails(p, dev, flags, driver);
    }
    hide Open;
    ExclusiveKept(p, h, Open(p, dev, flags, driver).0);
  }

  lemma IoctlExclusive(p: Pool, h: nat, fd: nat, req: Request, driver: Callback)
    requires Exclusive(p, h) && fd < MAX_FD && p.list[fd].dev != NoDev && !(fd == h && req == Tiocnxcl)
    ensures Exclusive(Ioctl(p, fd, req, driver).0, h)
    ensures Ioctl(p, fd, req, driver).0.list[h].dev == p.list[h].dev
  {
    LockMarks(p.list[fd]);
    UnlockMarks(p.list[fd]);
    hide Locked, Lockable, WithLock, WithoutLock, WithLock, WithoutLock;
    IoctlInv(p, fd, req, driver);
    ExclusiveKept(p, h, Ioctl(p, fd, req, driver).0);
  }

  lemma FcntlExclusive(p: Pool, h: nat, fd: nat, cmd: Command)
    requires Exclusive(p, h) && fd < MAX_FD
    ensures Exclusive(Fcntl(p, fd, cmd).0, h)
    ensures Fcntl(p, fd, cmd).0.list[h].dev == p.list[h].dev
  {
    if cmd.SetFl? {
      SetFlKeepsMarks(p.list[fd], cmd.flags);
    }
    hide Locked, Lockable, WithFlags;
    FcntlInv(p, fd, cmd);
    ExclusiveKept(p, h, Fcntl(p, fd, cmd).0);
  }

  lemma CloseExclusive(p: Pool, h: nat, fd: int, driver: Callback)
    requires Exclusive(p, h) && fd < MAX_FD && (fd == h ==> h <= 2)
    ensures Exclusive(Release(p, fd), h) && Release(p, fd).list[h].dev == p.list[h].dev
  {
    hide Locked, Lockable;
    ReleaseInv(p, fd);
    ExclusiveKept(p, h, Release(p, fd));
  }

  /** Nothing but its holder gives an exclusive lock up, and until then the device cannot
      be opened again. */
  lemma StepExclusive(p: Pool, h: nat, op: Op)
    requires Exclusive(p, h) && Permitted(p, op) && !Ends(op, h)
    ensures Exclusive(Step(p, op).0, h) && Step(p, op).0.list[h].dev == p.list[h].dev
    ensures op.CallOpen? && op.dev == p.list[h].dev ==> !Step(p, op).1.Ok?
  {
    hide Open, Ioctl, Fcntl, Release, Locked, Lockable;
    match op {
      case CallOpen(dev, flags, driver) =>
        OpenExclusive(p, h, dev, flags, driver);
      case CallClose(fd, driver) =>
        CloseExclusive(p, h, fd, driver);
      case CallIoctl(fd, req, driver) =>
        if 0 <= fd {
          IoctlExclusive(p, h, fd, req, driver);
        } else {
          BadIndex(p, op);
        }
      case CallFcntl(fd, cmd) =>
        if 0 <= fd {
          FcntlExclusive(p, h, fd, cmd);
        } else {
          BadIndex(p, op);
        }
    }
  }

  /** Over every further run, until a call that ends it, an exclusive lock stays so. */
  lemma {:induction false} LockSafe(p: Pool, h: nat, ops: seq<Op>)
    requires Exclusive(p, h) && Legal(p, ops) && forall i | 0 <= i < |ops| :: !Ends(ops[i], h)
    ensures Exclusive(Run(p, ops), h) && Run(p, ops).list[h].dev == p.list[h].dev
    decreases |ops|
  {
    if ops != [] {
      StepExclusive(p, h, ops[0]);
      hide Exclusive, Step, Permitted, Ends;
      LockSafe(Step(p, ops[0]).0, h, ops[1..]);
    }
  }

  /** From boot, through any run that ends in a granted lock, and any run after it: if the
      slot at the highwater mark did not hold another descriptor of the device when the
      lock was granted, no other descriptor of the device is open afterwards. */
  lemma GrantedThenSafe(before: seq<Op>, h: nat, after: seq<Op>)
    requires Legal(BOOT, before) && h < MAX_FD && Shape(Run(BOOT, before))
    requires var p := Run(BOOT, before);
             && Lockable(p.list[h]) && Lock(p, h).1.Ok?
             && (p.maxFd == h || (0 <= p.maxFd && p.list[p.maxFd].dev != p.list[h].dev))
             && Legal(Lock(p, h).0, after)
    requires forall i | 0 <= i < |after| :: !Ends(after[i], h)
    ensures Exclusive(Run(Lock(Run(BOOT, before), h).0, after), h)
  {
    var p := Run(BOOT, before);
    BootInv();
    RunInv(BOOT, before);
    hide Inv, Lock;
    GrantExclusive(p, h);
    LockSafe(Lock(p, h).0, h, after);
  }
}
