/** The system calls on the descriptor table, which they scan and update in place. Each
    does to the table what the function of the same name does to its contents. */
module FdTable {
  import opened FdPool

  class Files {
    const list: array<Fd>
    var maxFd: int

    ghost predicate Valid()
      reads this
    {
      list.Length == MAX_FD && -1 <= maxFd < MAX_FD
    }

    ghost function View(): (p: Pool)
      requires Valid()
      reads this, list
      ensures Shape(p)
    {
      Pool(list[..], maxFd)
    }

    /** The table as it is linked: the standard descriptors on the null device. */
    constructor ()
      ensures Valid() && View() == BOOT && fresh(list)
    {
      list := new Fd[MAX_FD](i => if 0 <= i <= 2 then Fd(DEV_NULL, 0) else FREE);
      maxFd := -1;
    }

    /** Binds the first free slot, if there is one. */
    method GetFd(dev: Dev) returns (rc: int)
      requires Valid() && dev != NoDev
      modifies this, list
      ensures Valid()
      ensures var k := LowestFree(old(View()).list, 0);
              && (k == MAX_FD ==> rc < 0 && View() == old(View()))
              && (k < MAX_FD ==> rc == k && View() == Bind(old(View()), k, Fd(dev, old(list[k].flags))))
    {
      rc := -1;
      for i := 0 to MAX_FD
        invariant maxFd == old(maxFd) && list[..] == old(list[..]) && rc == -1
        invariant forall j | 0 <= j < i :: list[j].dev != NoDev
      {
        if list[i].dev == NoDev {
          LowestFreeIs(list[..], i);
          list[i] := Fd(dev, list[i].flags);
          if i > maxFd {
            maxFd := i;
          }
          return i;
        }
      }
    }

    /** Marks the descriptor as a device's, and looks for a lock on that device. */
    method FileLocked(fd: nat) returns (locked: bool)
      requires Valid() && fd <= maxFd
      modifies list
      ensures View() == Set(old(View()), fd, Fd(old(list[fd].dev), DeviceMarked(old(list[fd].flags))))
      ensures locked <==> LockedElsewhere(View(), fd)
    {
      hide Locked, DeviceMarked;
      list[fd] := Fd(list[fd].dev, DeviceMarked(list[fd].flags));
      for i := 0 to maxFd + 1
        invariant forall j | 0 <= j < i :: !(list[j].dev == list[fd].dev && Locked(list[j]) && j != fd)
        invariant list[..] == old(list[..])[fd := Fd(old(list[fd].dev), DeviceMarked(old(list[fd].flags)))]
      {
        if list[i].dev == list[fd].dev && Locked(list[i]) && i != fd {
          return true;
        }
      }
      locked := false;
    }

    method ReleaseFd(fd: int)
      requires Valid() && fd < MAX_FD
      modifies list
      ensures View() == Release(old(View()), fd)
    {
      if fd > 2 {
        list[fd] := Fd(list[fd].dev, 0);
        list[fd] := Fd(NoDev, list[fd].flags);
      }
    }

    /** Sets the flags of a slot open has bound, and tests a device for locks. */
    method Claim(index: nat, dev: Dev, flags: bv32) returns (locked: bool)
      requires Valid() && index <= maxFd && list[index].dev == dev
      modifies list
      ensures View() == Set(old(View()), index, Fd(dev, NewFlags(dev, flags)))
      ensures locked <==> dev.Device? && LockedElsewhere(View(), index)
    {
      hide LockedElsewhere, MarksCleared, DeviceMarked;
      list[index] := Fd(dev, MarksCleared(flags));
      locked := false;
      if dev.Device? {
        locked := FileLocked(index);
      }
      assert list[..] == old(list[..])[index := Fd(dev, NewFlags(dev, flags))];
    }

    /** open(), on what the name has been found to name. */
    method DoOpen(dev: Dev, flags: bv32, driver: Callback) returns (r: Reply)
      requires Valid()
      modifies this, list
      ensures Valid() && (View(), r) == Open(old(View()), dev, flags, driver)
    {
      hide LockedElsewhere, NewFlags;
      if dev == NoDev {
        return Err(ENODEV);
      }
      var index := GetFd(dev);
      if index < 0 {
        return Err(EMFILE);
      }
      var locked := Claim(index, dev, flags);
      assert View() == Bind(old(View()), index, Fd(dev, NewFlags(dev, flags)));
      if locked {
        ReleaseFd(index);
        return Err(EACCES);
      }
      var status := driver.Status();
      if status < 0 {
        ReleaseFd(index);
        return Err(FromDriver(-status));
      }
      return Ok(index);
    }

    method DoClose(fd: int, driver: Callback) returns (r: Reply)
      requires Valid() && Permitted(View(), CallClose(fd, driver))
      modifies list
      ensures (View(), r) == Close(old(View()), fd, driver)
    {
      if fd < 0 {
        return Err(EBADFD);
      }
      var rval := driver.Status();
      ReleaseFd(fd);
      return if rval < 0 then Err(FromDriver(-rval)) else Ok(0);
    }

    method FdLock(fd: nat) returns (r: Reply)
      requires Valid() && fd < MAX_FD
      modifies list
      ensures (View(), r) == Lock(old(View()), fd)
    {
      hide WithLock;
      var i := 0;
      while i < maxFd
        invariant 0 <= i <= MAX_FD && (i == 0 || i <= maxFd)
        invariant forall j | 0 <= j < i :: !(j != fd && list[j].dev == list[fd].dev)
        invariant list[..] == old(list[..])
      {
        if i != fd && list[i].dev == list[fd].dev {
          return Err(EACCES);
        }
        i := i + 1;
      }
      list[fd] := WithLock(list[fd]);
      return Ok(0);
    }

    method FdUnlock(fd: nat) returns (r: Reply)
      requires Valid() && fd < MAX_FD
      modifies list
      ensures View() == Unlock(old(View()), fd) && r == Ok(0)
    {
      hide WithoutLock;
      list[fd] := WithoutLock(list[fd]);
      return Ok(0);
    }

    method DoIoctl(fd: int, req: Request, driver: Callback) returns (r: Reply)
      requires Valid() && Permitted(View(), CallIoctl(fd, req, driver))
      modifies list
      ensures (View(), r) == Ioctl(old(View()), fd, req, driver)
    {
      hide Lockable, Lock, Unlock;
      if fd < 0 {
        return Err(EBADFD);
      }
      if Lockable(list[fd]) {
        if req == Tiocexcl {
          r := FdLock(fd);
          return;
        } else if req == Tiocnxcl {
          r := FdUnlock(fd);
          return;
        }
      }
      if driver.Missing? {
        return Err(ENOTTY);
      }
      return if driver.status < 0 then Err(FromDriver(-driver.status)) else Ok(driver.status);
    }

    method SetFlags(fd: nat, flags: bv32)
      requires Valid() && fd < MAX_FD
      modifies list
      ensures View() == Set(old(View()), fd, WithFlags(old(list[fd]), flags))
    {
      hide Cleared, Raised;
      list[fd] := Cleared(list[fd]);
      list[fd] := Raised(list[fd], flags);
      assert list[..] == old(list[..])[fd := WithFlags(old(list[fd]), flags)];
    }

    method DoFcntl(fd: int, cmd: Command) returns (r: Reply)
      requires Valid() && fd < MAX_FD
      modifies list
      ensures (View(), r) == Fcntl(old(View()), fd, cmd)
    {
      hide WithFlags, MarksCleared;
      if fd < 0 {
        return Err(EBADFD);
      }
      match cmd {
        case GetFl =>
          return Bits(MarksCleared(list[fd].flags));
        case SetFl(flags) =>
          SetFlags(fd, flags);
          return Ok(0);
        case OtherCommand =>
          return Err(EINVAL);
      }
    }

    method OpenFd(target: nat, dev: Dev, flags: bv32, driver: Callback)
      requires Valid() && target <= 2
      modifies this, list
      ensures Valid() && View() == OpenInto(old(View()), target, dev, flags, driver)
    {
      hide Open;
      var r := DoOpen(dev, flags, driver);
      if r.Ok? && 0 <= r.value < MAX_FD {
        list[target] := list[r.value];
        ReleaseFd(r.value);
      }
    }

    method IoRedirect(devs: seq<Dev>, drivers: seq<Callback>)
      requires Valid() && |devs| == |drivers| == 3
      modifies this, list
      ensures Valid() && View() == Redirect(old(View()), devs, drivers)
    {
      hide OpenInto;
      OpenFd(1, devs[0], 1, drivers[0]);
      OpenFd(0, devs[1], 0, drivers[1]);
      OpenFd(2, devs[2], 1, drivers[2]);
    }
  }

  /** The table started from boot and driven by any legal calls keeps the invariant. */
  method Serve(ops: seq<Op>, devs: seq<Dev>, drivers: seq<Callback>)
    returns (table: seq<Fd>, maxFd: int)
    requires |devs| == |drivers| == 3
    requires Legal(Redirect(BOOT, devs, drivers), ops)
    ensures Pool(table, maxFd) == Run(Redirect(BOOT, devs, drivers), ops)
    ensures Inv(Pool(table, maxFd))
  {
    RedirectFromBoot(devs, drivers);
    var files := new Files();
    files.IoRedirect(devs, drivers);
    hide Inv, Redirect, Step, Permitted;
    ghost var start := Redirect(BOOT, devs, drivers);
    RunInv(start, ops);
    for i := 0 to |ops|
      invariant fresh(files) && fresh(files.list) && files.Valid()
      invariant Legal(files.View(), ops[i..]) && Run(files.View(), ops[i..]) == Run(start, ops)
    {
      assert ops[i..][0] == ops[i] && ops[i..][1..] == ops[i + 1..];
      DoCall(files, ops[i]);
    }
    table, maxFd := files.list[..], files.maxFd;
  }

  method DoCall(files: Files, op: Op)
    requires files.Valid() && Permitted(files.View(), op)
    modifies files, files.list
    ensures files.Valid() && files.View() == Step(old(files.View()), op).0
  {
    hide Open, Close, Ioctl, Fcntl;
    var r;
    match op {
      case CallOpen(dev, flags, driver) => r := files.DoOpen(dev, flags, driver);
      case CallClose(fd, driver) => r := files.DoClose(fd, driver);
      case CallIoctl(fd, req, driver) => r := files.DoIoctl(fd, req, driver);
      case CallFcntl(fd, cmd) => r := files.DoFcntl(fd, cmd);
    }
  }
}
