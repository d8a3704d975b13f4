/** The descriptor pool as the C code keeps it, an array scanned by loops, proved to be the state machine of FdPool. */
module FdTable {
  import opened FdPool

  class Table {
    const fds: array<Fd>  // alt_fd_list
    var maxFd: int        // alt_max_fd

    ghost function Model(): Pool
      reads this, fds
    {
      Pool(fds[..], maxFd)
    }

    ghost predicate Valid()
      reads this, fds
    {
      fds.Length == ALT_MAX_FD && Inv(Model())
    }

    constructor ()
      ensures Valid() && Model() == Initial() && fresh(fds)
    {
      fds := new Fd[ALT_MAX_FD](i => if 0 <= i < 3 then Fd(NULL_DEVICE, 0, {}) else Fd(NoDev, 0, {}));
      maxFd := -1;
      new;
      assert fds[..] == Initial().fds;
    }

    /** alt_get_fd: takes the lowest free descriptor for `dev`, or returns -1 if there is none. */
    method GetFd(dev: Dev) returns (rc: int)
      requires fds.Length == ALT_MAX_FD && dev != NoDev
      modifies this, fds
      ensures var i := LowestFree(old(fds[..]));
        if i == ALT_MAX_FD then rc == -1 && Model() == old(Model())
        else rc == i && Model() == Pool(old(fds[..])[i := old(fds[i]).(dev := dev)], if i > old(maxFd) then i else old(maxFd))
    {
      ghost var was := fds[..];
      var i := 0;
      while i < ALT_MAX_FD
        invariant 0 <= i <= ALT_MAX_FD && fds[..] == was && maxFd == old(maxFd)
        invariant i <= LowestFree(was)
      {
        if fds[i].dev == NoDev {
          assert i == LowestFree(was) by {
            assert was[i].dev == NoDev;
          }
          fds[i] := fds[i].(dev := dev);
          if i > maxFd {
            maxFd := i;
          }
          assert fds[..] == was[i := was[i].(dev := dev)];
          return i;
        }
        assert was[i].dev != NoDev;
        i := i + 1;
      }
      return -1;
    }

    /** alt_release_fd: frees a descriptor, unless it is a standard one. */
    method ReleaseFd(f: int)
      requires f < fds.Length
      modifies fds
      ensures Model() == Released(old(Model()), f)
    {
      if f > 2 {
        fds[f] := fds[f].(flags := {});
        fds[f] := fds[f].(dev := NoDev);
        assert fds[..] == old(fds[..])[f := Fd(NoDev, old(fds[f]).priv, {})];
      }
    }

    /** alt_file_locked: marks the descriptor as a device's and looks for a lock on it.  The loop counter is
        unsigned, so the scan is as meant only because the high-water mark is not negative here. */
    method FileLocked(f: nat) returns (locked: bool)
      requires f < fds.Length == ALT_MAX_FD && 0 <= maxFd < ALT_MAX_FD
      modifies fds
      ensures fds[..] == old(fds[..])[f := old(fds[f]).(flags := old(fds[f]).flags + {ALT_FD_DEV})]
      ensures locked <==> LockedBelow(Model(), f, maxFd + 1)
    {
      fds[f] := fds[f].(flags := fds[f].flags + {ALT_FD_DEV});
      var i := 0;
      while i <= maxFd
        invariant 0 <= i <= maxFd + 1 && !LockedBelow(Model(), f, i)
      {
        if fds[i].dev == fds[f].dev && IsExcl(fds[i].flags) && i != f {
          return true;
        }
        i := i + 1;
      }
      return false;
    }

    /** ALT_OPEN on what the name has led to. */
    method Open(dev: Dev, flags: Word, status: int) returns (r: Outcome)
      requires Valid()
      modifies this, fds
      ensures Valid() && (Model(), r) == OpenPool(old(Model()), dev, flags, status)
    {
      OpenKeepsInv(Model(), dev, flags, status);
      var index := -1;
      if dev == NoDev {
        r := Fail(ENODEV);
      } else {
        AllocateIfRoom(dev, flags);
        index := GetFd(dev);
        if index < 0 {
          r := Fail(EMFILE);
        } else {
          fds[index] := fds[index].(flags := flags - ALT_FD_FLAGS_MASK);
          var refused := false;
          if dev.Device? {
            refused := FileLocked(index);
          }
          assert Model() == Allocated(old(Model()), index, dev, flags);
          r := if refused then Fail(EACCES) else if status < 0 then Fail(Driver(-status)) else Ok(index);
        }
      }
      if r.Fail? {
        ReleaseFd(index);
      }
    }

    lemma AllocateIfRoom(dev: Dev, flags: Word)
      requires Valid() && dev != NoDev
      ensures LowestFree(fds[..]) < ALT_MAX_FD ==> 3 <= LowestFree(fds[..]) && Inv(Allocated(Model(), LowestFree(fds[..]), dev, flags))
    {
    }

    /** ALT_CLOSE. */
    method Close(f: int, rval: int) returns (r: Outcome)
      requires Valid() && Defined(Model(), CallClose(f, rval))
      modifies fds
      ensures Valid() && (Model(), r) == ClosePool(old(Model()), f, rval)
    {
      if f >= 0 {
        ReleaseKeepsInv(Model(), f);
        ReleaseFd(f);
        r := if rval < 0 then Fail(Driver(-rval)) else Ok(0);
      } else {
        r := Fail(EBADFD);
      }
    }

    /** alt_fd_lock: the scan stops before the high-water mark. */
    method Lock(f: nat) returns (ok: bool)
      requires f < fds.Length == ALT_MAX_FD && maxFd < ALT_MAX_FD
      modifies fds
      ensures ok <==> !SharedBelow(old(Model()), f, maxFd)
      ensures fds[..] == if ok then old(fds[..])[f := old(fds[f]).(flags := old(fds[f]).flags + {ALT_FD_EXCL})] else old(fds[..])
    {
      var i := 0;
      while i < maxFd
        invariant 0 <= i && (i <= maxFd || i == 0) && !SharedBelow(Model(), f, i)
        invariant fds[..] == old(fds[..])
      {
        if i != f && fds[i].dev == fds[f].dev {
          return false;
        }
        i := i + 1;
      }
      fds[f] := fds[f].(flags := fds[f].flags + {ALT_FD_EXCL});
      return true;
    }

    /** alt_fd_unlock. */
    method Unlock(f: nat)
      requires f < fds.Length
      modifies fds
      ensures fds[..] == old(fds[..])[f := old(fds[f]).(flags := old(fds[f]).flags - {ALT_FD_EXCL})]
    {
      fds[f] := fds[f].(flags := fds[f].flags - {ALT_FD_EXCL});
    }

    /** ALT_IOCTL. */
    method Ioctl(f: int, req: Request, driver: DriverIoctl) returns (r: Outcome)
      requires Valid() && Defined(Model(), CallIoctl(f, req, driver))
      modifies fds
      ensures Valid() && (Model(), r) == IoctlPool(old(Model()), f, req, driver)
    {
      StepKeepsInv(Model(), CallIoctl(f, req, driver));
      if f < 0 {
        r := Fail(EBADFD);
      } else if IsDev(fds[f].flags) && req == TIOCEXCL {
        var ok := Lock(f);
        r := if ok then Ok(0) else Fail(EACCES);
      } else if IsDev(fds[f].flags) && req == TIOCNXCL {
        Unlock(f);
        r := Ok(0);
      } else {
        r := match driver
          case NoIoctl => Fail(ENOTTY)
          case Returns(rc) => if rc < 0 then Fail(Driver(-rc)) else Ok(rc);
      }
    }

    /** ALT_FCNTL. */
    method Fcntl(f: int, cmd: Command, mask: Word) returns (r: Outcome)
      requires Valid() && Defined(Model(), CallFcntl(f, cmd, mask))
      modifies fds
      ensures Valid() && (Model(), r) == FcntlPool(old(Model()), f, cmd, mask)
    {
      StepKeepsInv(Model(), CallFcntl(f, cmd, mask));
      if f < 0 {
        r := Fail(EBADFD);
      } else {
        match cmd {
          case F_GETFL =>
            r := OkFlags(UserFlags(fds[f].flags));
          case F_SETFL(arg) =>
            fds[f] := fds[f].(flags := fds[f].flags - mask);
            fds[f] := fds[f].(flags := fds[f].flags + arg * mask);
            assert fds[..] == old(fds[..])[f := old(fds[f]).(flags := old(fds[f]).flags - mask + arg * mask)];
            r := Ok(0);
          case OtherCommand =>
            r := Fail(EINVAL);
        }
      }
    }

    /** alt_open_fd: opens `dev` and moves the descriptor to the standard slot `s`. */
    method OpenFd(s: nat, dev: Dev, flags: Word, status: int)
      requires Valid() && s < 3
      modifies this, fds
      ensures Valid() && Model() == RedirectPool(old(Model()), s, dev, flags, status)
    {
      RedirectKeepsInv(Model(), s, dev, flags, status);
      OpenTakesLowest(Model(), dev, flags, status, s);
      var got := Open(dev, flags, status);
      if got.Ok? {
        var from := got.value;
        fds[s] := fds[s].(dev := fds[from].dev);
        fds[s] := fds[s].(priv := fds[from].priv);
        fds[s] := fds[s].(flags := fds[from].flags);
        ReleaseFd(from);
      }
    }

    /** alt_io_redirect, given what the three names lead to. */
    method IoRedirect(out: Dev, inn: Dev, err: Dev, rdonly: Word, wronly: Word, so: int, si: int, se: int)
      requires Valid()
      modifies this, fds
      ensures Valid()
      ensures var cs := [CallRedirect(1, out, wronly, so), CallRedirect(0, inn, rdonly, si), CallRedirect(2, err, wronly, se)];
        AllDefined(old(Model()), cs) && Model() == Run(old(Model()), cs)
    {
      ghost var c1, c2, c3 := CallRedirect(1, out, wronly, so), CallRedirect(0, inn, rdonly, si), CallRedirect(2, err, wronly, se);
      ghost var p0 := Model();
      OpenFd(1, out, wronly, so);
      ghost var p1 := Model();
      OpenFd(0, inn, rdonly, si);
      ghost var p2 := Model();
      OpenFd(2, err, wronly, se);
      RunThree(p0, c1, c2, c3);
    }
  }
}
