/** The file descriptor pool as a state machine over whole calls: what open, close, ioctl, fcntl and the
    redirection of the standard streams make of it, and what holds over every run of them. */
module FdPool {

  // ------------------------------------------------------------------ descriptor flags

  /** A flag word, as the set of the bits that are set in it. */
  type Word = set<nat>

  const ALT_FD_EXCL := 31
  const ALT_FD_DEV := 30
  const ALT_FD_FLAGS_MASK: Word := {ALT_FD_EXCL, ALT_FD_DEV}

  predicate IsExcl(flags: Word) { ALT_FD_EXCL in flags }
  predicate IsDev(flags: Word) { ALT_FD_DEV in flags }

  /** The flags without the two bits the pool keeps for itself. */
  function UserFlags(flags: Word): Word {
    flags - ALT_FD_FLAGS_MASK
  }

  // ------------------------------------------------------------------ the pool

  const ALT_MAX_FD := 32

  /** What a name leads to: a character device, a file system, or nothing.  `NoDev` also marks a free slot. */
  datatype Dev = NoDev | Device(id: nat) | FileSystem(id: nat)

  datatype Fd = Fd(dev: Dev, priv: int, flags: Word)

  /** `maxFd` is the high-water mark, -1 until the first descriptor is taken from the free ones. */
  datatype Pool = Pool(fds: seq<Fd>, maxFd: int)

  datatype Errno = EBADFD | EMFILE | EACCES | ENODEV | ENOTTY | EINVAL | Driver(code: int)
  datatype Outcome = Ok(value: int) | OkFlags(flags: Word) | Fail(errno: Errno)

  const NULL_DEVICE := Device(0)

  function Initial(): (p: Pool)
    ensures Inv(p) && p.maxFd == -1
    ensures forall j :: 0 <= j < ALT_MAX_FD ==> p.fds[j].dev == if j < 3 then NULL_DEVICE else NoDev
  {
    Pool(seq(ALT_MAX_FD, i => if i < 3 then Fd(NULL_DEVICE, 0, {}) else Fd(NoDev, 0, {})), -1)
  }

  predicate Open(p: Pool, f: int) {
    0 <= f < |p.fds| && p.fds[f].dev != NoDev
  }

  /** What every reachable pool satisfies: the standard descriptors are never free, the high-water mark bounds
      the others, and the reserved bits are set on devices only, never before the first open. */
  ghost predicate Inv(p: Pool) {
    && |p.fds| == ALT_MAX_FD
    && (forall i :: 0 <= i < 3 ==> p.fds[i].dev != NoDev)
    && (p.maxFd == -1 || 3 <= p.maxFd < ALT_MAX_FD)
    && (forall i :: 3 <= i < ALT_MAX_FD && i > p.maxFd ==> p.fds[i].dev == NoDev)
    && (forall i :: 0 <= i < ALT_MAX_FD && IsExcl(p.fds[i].flags) ==> IsDev(p.fds[i].flags))
    && (forall i :: 0 <= i < ALT_MAX_FD && IsDev(p.fds[i].flags) ==> p.fds[i].dev.Device? && p.maxFd != -1)
  }

  // ------------------------------------------------------------------ the calls, as functions of the pool

  /** The lowest free descriptor, or the size of the pool. */
  function LowestFree(fds: seq<Fd>): (i: nat)
    ensures i <= |fds|
    ensures i < |fds| ==> fds[i].dev == NoDev
    ensures forall j :: 0 <= j < i ==> fds[j].dev != NoDev
  {
    if fds == [] || fds[0].dev == NoDev then 0 else 1 + LowestFree(fds[1..])
  }

  /** Some other descriptor below `limit` refers to the device of f. */
  ghost predicate SharedBelow(p: Pool, f: int, limit: int)
    requires 0 <= f < |p.fds| && limit <= |p.fds|
  {
    exists j :: 0 <= j < limit && j != f && p.fds[j].dev == p.fds[f].dev
  }

  /** Some other descriptor below `limit` holds the lock on the device of f. */
  ghost predicate LockedBelow(p: Pool, f: int, limit: int)
    requires 0 <= f < |p.fds| && limit <= |p.fds|
  {
    exists j :: 0 <= j < limit && j != f && p.fds[j].dev == p.fds[f].dev && IsExcl(p.fds[j].flags)
  }

  function Released(p: Pool, f: int): Pool
    requires f < |p.fds|
  {
    if f > 2 then p.(fds := p.fds[f := Fd(NoDev, p.fds[f].priv, {})]) else p
  }

  /** The pool with the descriptor f newly allocated to `dev`. */
  function Allocated(p: Pool, f: nat, dev: Dev, flags: Word): Pool
    requires f < |p.fds|
  {
    var user := UserFlags(flags);
    Pool(p.fds[f := Fd(dev, p.fds[f].priv, if dev.Device? then user + {ALT_FD_DEV} else user)],
         if f > p.maxFd then f else p.maxFd)
  }

  /** `dev` is what the name leads to, and `status` what the driver's open function returns, zero if it has none. */
  ghost function OpenPool(p: Pool, dev: Dev, flags: Word, status: int): (Pool, Outcome)
    requires Inv(p)
  {
    var f := LowestFree(p.fds);
    if dev == NoDev then (p, Fail(ENODEV))
    else if f == |p.fds| then (p, Fail(EMFILE))
    else
      var q := Allocated(p, f, dev, flags);
      if dev.Device? && LockedBelow(q, f, q.maxFd + 1) then (Released(q, f), Fail(EACCES))
      else if status < 0 then (Released(q, f), Fail(Driver(-status)))
      else (q, Ok(f))
  }

  /** `rval` is what the driver's close function returns, zero if it has none. */
  function ClosePool(p: Pool, f: int, rval: int): (Pool, Outcome)
    requires f < |p.fds|
  {
    if f < 0 then (p, Fail(EBADFD))
    else (Released(p, f), if rval < 0 then Fail(Driver(-rval)) else Ok(0))
  }

  datatype Request = TIOCEXCL | TIOCNXCL | OtherRequest

  /** What the driver's ioctl function returns, if it has one. */
  datatype DriverIoctl = NoIoctl | Returns(rc: int)

  ghost function IoctlPool(p: Pool, f: int, req: Request, driver: DriverIoctl): (Pool, Outcome)
    requires f < |p.fds| && p.maxFd < |p.fds|
  {
    if f < 0 then (p, Fail(EBADFD))
    else if IsDev(p.fds[f].flags) && req == TIOCEXCL then
      if SharedBelow(p, f, p.maxFd) then (p, Fail(EACCES))
      else (p.(fds := p.fds[f := p.fds[f].(flags := p.fds[f].flags + {ALT_FD_EXCL})]), Ok(0))
    else if IsDev(p.fds[f].flags) && req == TIOCNXCL then
      (p.(fds := p.fds[f := p.fds[f].(flags := p.fds[f].flags - {ALT_FD_EXCL})]), Ok(0))
    else match driver
      case NoIoctl => (p, Fail(ENOTTY))
      case Returns(rc) => (p, if rc < 0 then Fail(Driver(-rc)) else Ok(rc))
  }

  datatype Command = F_GETFL | F_SETFL(arg: Word) | OtherCommand

  /** `mask` is O_APPEND | O_NONBLOCK of the C library. */
  function FcntlPool(p: Pool, f: int, cmd: Command, mask: Word): (Pool, Outcome)
    requires f < |p.fds| && mask !! ALT_FD_FLAGS_MASK
  {
    if f < 0 then (p, Fail(EBADFD))
    else match cmd
      case F_GETFL => (p, OkFlags(UserFlags(p.fds[f].flags)))
      case F_SETFL(arg) => (p.(fds := p.fds[f := p.fds[f].(flags := p.fds[f].flags - mask + arg * mask)]), Ok(0))
      case OtherCommand => (p, Fail(EINVAL))
  }

  /** Opens `dev` and moves the new descriptor to the standard slot `s`; a failed open leaves the slot as it is. */
  ghost function RedirectPool(p: Pool, s: nat, dev: Dev, flags: Word, status: int): Pool
    requires Inv(p) && s < 3
  {
    var (q, r) := OpenPool(p, dev, flags, status);
    if r.Ok? && 0 <= r.value < |q.fds| then Released(q.(fds := q.fds[s := q.fds[r.value]]), r.value) else q
  }

  // ------------------------------------------------------------------ runs

  datatype Call =
    | CallOpen(dev: Dev, flags: Word, status: int)
    | CallClose(fd: int, rval: int)
    | CallIoctl(fd: int, req: Request, driver: DriverIoctl)
    | CallFcntl(fd: int, cmd: Command, mask: Word)
    | CallRedirect(slot: nat, dev: Dev, flags: Word, status: int)

  /** The calls the C code defines: a non-negative descriptor is one of the pool, and open where its device is used. */
  predicate Defined(p: Pool, c: Call) {
    match c
    case CallOpen(_, _, _) => true
    case CallClose(f, _) => f < 0 || Open(p, f)
    case CallIoctl(f, _, _) => f < 0 || Open(p, f)
    case CallFcntl(f, _, mask) => f < |p.fds| && mask !! ALT_FD_FLAGS_MASK
    case CallRedirect(s, _, _, _) => s < 3
  }

  ghost function Step(p: Pool, c: Call): (Pool, Outcome)
    requires Inv(p) && Defined(p, c)
  {
    match c
    case CallOpen(dev, flags, status) => OpenPool(p, dev, flags, status)
    case CallClose(f, rval) => ClosePool(p, f, rval)
    case CallIoctl(f, req, driver) => IoctlPool(p, f, req, driver)
    case CallFcntl(f, cmd, mask) => FcntlPool(p, f, cmd, mask)
    case CallRedirect(s, dev, flags, status) => (RedirectPool(p, s, dev, flags, status), Ok(0))
  }

  lemma ReleaseKeepsInv(p: Pool, f: int)
    requires Inv(p) && f < |p.fds|
    ensures Inv(Released(p, f))
  {
  }

  lemma AllocateKeepsInv(p: Pool, dev: Dev, flags: Word)
    requires Inv(p) && dev != NoDev && LowestFree(p.fds) < |p.fds|
    ensures Inv(Allocated(p, LowestFree(p.fds), dev, flags))
    ensures 3 <= LowestFree(p.fds)
  {
  }

  lemma OpenKeepsInv(p: Pool, dev: Dev, flags: Word, status: int)
    requires Inv(p)
    ensures Inv(OpenPool(p, dev, flags, status).0)
  {
    var f := LowestFree(p.fds);
    if dev != NoDev && f < |p.fds| {
      AllocateKeepsInv(p, dev, flags);
      ReleaseKeepsInv(Allocated(p, f, dev, flags), f);
    }
  }

  lemma RedirectKeepsInv(p: Pool, s: nat, dev: Dev, flags: Word, status: int)
    requires Inv(p) && s < 3
    ensures Inv(RedirectPool(p, s, dev, flags, status))
  {
    OpenKeepsInv(p, dev, flags, status);
    var (q, r) := OpenPool(p, dev, flags, status);
    if r.Ok? && 0 <= r.value < |q.fds| {
      ReleaseKeepsInv(q.(fds := q.fds[s := q.fds[r.value]]), r.value);
    }
  }

  lemma StepKeepsInv(p: Pool, c: Call)
    requires Inv(p) && Defined(p, c)
    ensures Inv(Step(p, c).0)
  {
    match c
    case CallOpen(dev, flags, status) => OpenKeepsInv(p, dev, flags, status);
    case CallClose(f, _) => ReleaseKeepsInv(p, f);
    case CallIoctl(f, req, driver) =>
    case CallFcntl(f, cmd, mask) =>
    case CallRedirect(s, dev, flags, status) => RedirectKeepsInv(p, s, dev, flags, status);
  }

  /** Every call of the list is one the C code defines, when its turn comes. */
  ghost predicate AllDefined(p: Pool, cs: seq<Call>)
    requires Inv(p)
    decreases |cs|
  {
    cs != [] ==> Defined(p, cs[0]) && (StepKeepsInv(p, cs[0]); AllDefined(Step(p, cs[0]).0, cs[1..]))
  }

  ghost function Run(p: Pool, cs: seq<Call>): (q: Pool)
    requires Inv(p) && AllDefined(p, cs)
    ensures Inv(q)
    decreases |cs|
  {
    if cs == [] then p else (StepKeepsInv(p, cs[0]); Run(Step(p, cs[0]).0, cs[1..]))
  }

  lemma RunPrepends(p: Pool, c: Call, cs: seq<Call>)
    requires Inv(p) && Defined(p, c)
    ensures Inv(Step(p, c).0)
    ensures AllDefined(Step(p, c).0, cs) ==> AllDefined(p, [c] + cs) && Run(p, [c] + cs) == Run(Step(p, c).0, cs)
  {
    StepKeepsInv(p, c);
    assert ([c] + cs)[1..] == cs;
  }

  lemma RunThree(p: Pool, c1: Call, c2: Call, c3: Call)
    requires Inv(p) && Defined(p, c1)
    requires var p1 := Step(p, c1).0; Inv(p1) && Defined(p1, c2) && Inv(Step(p1, c2).0) && Defined(Step(p1, c2).0, c3)
    ensures AllDefined(p, [c1, c2, c3])
    ensures Run(p, [c1, c2, c3]) == Step(Step(Step(p, c1).0, c2).0, c3).0
  {
    var p1 := Step(p, c1).0;
    var p2 := Step(p1, c2).0;
    RunPrepends(p2, c3, []);
    RunPrepends(p1, c2, [c3]);
    RunPrepends(p, c1, [c2, c3]);
    assert [c3] + [] == [c3] && [c2] + [c3] == [c2, c3] && [c1] + [c2, c3] == [c1, c2, c3];
  }

  // ------------------------------------------------------------------ the descriptor pool

  /** In every pool reached from the initial one the standard descriptors are allocated, and the high-water mark
      is -1 with nothing else open, or bounds every open descriptor above the standard ones. */
  lemma PoolIsBounded(cs: seq<Call>, f: nat)
    requires AllDefined(Initial(), cs) && f < ALT_MAX_FD
    ensures var p := Run(Initial(), cs);
      |p.fds| == ALT_MAX_FD && (f < 3 ==> Open(p, f)) && (f >= 3 && Open(p, f) ==> f <= p.maxFd)
  {
  }

  /** A successful open returns the lowest free descriptor and touches no other; a failed one leaves the set of
      open descriptors and every open descriptor as they were. */
  lemma OpenTakesLowest(p: Pool, dev: Dev, flags: Word, status: int, j: nat)
    requires Inv(p) && j < ALT_MAX_FD
    ensures var (q, r) := OpenPool(p, dev, flags, status);
      && (r.Ok? ==> 3 <= r.value < ALT_MAX_FD && !Open(p, r.value) && q.fds[r.value].dev == dev
                    && (j < r.value ==> Open(p, j)) && (j != r.value ==> q.fds[j] == p.fds[j]))
      && (r.Fail? ==> (Open(q, j) <==> Open(p, j)) && (Open(p, j) ==> q.fds[j] == p.fds[j]))
  {
    var f := LowestFree(p.fds);
    if dev != NoDev && f < |p.fds| {
      AllocateKeepsInv(p, dev, flags);
    }
  }

  /** Some descriptor of the device holds its lock. */
  ghost predicate DevLocked(p: Pool, dev: Dev) {
    exists j :: 0 <= j < |p.fds| && p.fds[j].dev == dev && IsExcl(p.fds[j].flags)
  }

  /** The scan up to the high-water mark misses nothing: with a free descriptor left, opening a device is refused
      exactly if some open descriptor holds its lock. */
  lemma OpenRefusedIff(p: Pool, dev: Dev, flags: Word, status: int)
    requires Inv(p) && dev.Device? && LowestFree(p.fds) < |p.fds|
    ensures OpenPool(p, dev, flags, status).1 == Fail(EACCES) <==> DevLocked(p, dev)
  {
    var f := LowestFree(p.fds);
    var q := Allocated(p, f, dev, flags);
    AllocateKeepsInv(p, dev, flags);
    if j :| 0 <= j < |p.fds| && p.fds[j].dev == dev && IsExcl(p.fds[j].flags) {
      assert j != f && j < q.maxFd + 1 && q.fds[j] == p.fds[j];
      assert LockedBelow(q, f, q.maxFd + 1);
    }
    if LockedBelow(q, f, q.maxFd + 1) {
      var j :| 0 <= j < q.maxFd + 1 && j != f && q.fds[j].dev == q.fds[f].dev && IsExcl(q.fds[j].flags);
      assert p.fds[j] == q.fds[j];
    }
  }

  /** What open answers: a name that leads nowhere is refused first, then a full pool, then a locked device, and only
      then counts what the driver returned. */
  lemma OpenAnswers(p: Pool, dev: Dev, flags: Word, status: int)
    requires Inv(p)
    ensures var r := OpenPool(p, dev, flags, status).1;
      if dev == NoDev then r == Fail(ENODEV)
      else if forall j :: 0 <= j < ALT_MAX_FD ==> Open(p, j) then r == Fail(EMFILE)
      else if dev.Device? && DevLocked(p, dev) then r == Fail(EACCES)
      else if status < 0 then r == Fail(Driver(-status))
      else r.Ok?
  {
    if LowestFree(p.fds) < |p.fds| {
      assert !Open(p, LowestFree(p.fds));
      if dev.Device? {
        OpenRefusedIff(p, dev, flags, status);
      }
    }
  }

  /** What a successful open leaves in its descriptor: the flags it was given, but for the two bits of the pool, of
      which one marks a device and the lock is clear.  The mark rises to the descriptor if it was below. */
  lemma OpenStores(p: Pool, dev: Dev, flags: Word, status: int, bit: nat)
    requires Inv(p) && OpenPool(p, dev, flags, status).1.Ok?
    ensures var (q, r) := OpenPool(p, dev, flags, status);
      && Inv(q) && Open(q, r.value)
      && (bit in q.fds[r.value].flags <==> if bit == 30 then dev.Device? else bit in flags && bit != 31)
      && p.maxFd <= q.maxFd && r.value <= q.maxFd && q.maxFd in {p.maxFd, r.value}
      && q.fds[r.value].priv == p.fds[r.value].priv
  {
    OpenKeepsInv(p, dev, flags, status);
  }

  /** Closing a descriptor frees it, unless it is a standard one, and touches nothing else, whatever the driver says;
      what the driver says is the answer. */
  lemma CloseFrees(p: Pool, f: int, rval: int, j: nat)
    requires Inv(p) && Open(p, f) && j < ALT_MAX_FD
    ensures var (q, r) := ClosePool(p, f, rval);
      && (Open(q, j) <==> Open(p, j) && (j != f || f < 3))
      && (j != f || f < 3 ==> q.fds[j] == p.fds[j]) && (j == f && f >= 3 ==> q.fds[j].flags == {})
      && q.maxFd == p.maxFd
      && r == if rval < 0 then Fail(Driver(-rval)) else Ok(0)
  {
  }

  /** Closing what was just opened gives the descriptors back as they were, and the next open takes the same one. */
  lemma CloseUndoesOpen(p: Pool, dev: Dev, flags: Word, rval: int, other: Dev, more: Word)
    requires Inv(p) && OpenPool(p, dev, flags, 0).1.Ok? && other.FileSystem?
    ensures var (q, r) := OpenPool(p, dev, flags, 0);
      var t := ClosePool(q, r.value, rval).0;
      && |t.fds| == ALT_MAX_FD && Inv(t)
      && (forall j :: 0 <= j < ALT_MAX_FD ==> (Open(t, j) <==> Open(p, j)) && (Open(p, j) ==> t.fds[j] == p.fds[j]))
      && OpenPool(t, other, more, 0).1 == r
  {
    var (q, r) := OpenPool(p, dev, flags, 0);
    OpenKeepsInv(p, dev, flags, 0);
    ReleaseKeepsInv(q, r.value);
    var t := ClosePool(q, r.value, rval).0;
    assert Open(t, LowestFree(p.fds)) <==> false;
    assert LowestFree(t.fds) == LowestFree(p.fds) by {
      assert forall j :: 0 <= j < r.value ==> t.fds[j] == p.fds[j];
    }
  }

  /** What F_SETFL sets F_GETFL gets: the bits of the mask as given, the other bits as they were, without the two of
      the pool, which it leaves alone.  Nothing else changes. */
  lemma FlagsReadBack(p: Pool, f: nat, arg: Word, mask: Word, bit: nat, j: nat)
    requires Inv(p) && f < ALT_MAX_FD && j < ALT_MAX_FD && mask !! ALT_FD_FLAGS_MASK
    ensures var (q, r) := FcntlPool(p, f, F_SETFL(arg), mask);
      && r == Ok(0) && Inv(q) && q.maxFd == p.maxFd
      && FcntlPool(q, f, F_GETFL, mask).0 == q && FcntlPool(q, f, F_GETFL, mask).1.OkFlags?
      && (bit in FcntlPool(q, f, F_GETFL, mask).1.flags <==>
            if bit in mask then bit in arg else bit in p.fds[f].flags && bit != 30 && bit != 31)
      && (bit in {30, 31} ==> (bit in q.fds[f].flags <==> bit in p.fds[f].flags))
      && q.fds[f].dev == p.fds[f].dev && q.fds[f].priv == p.fds[f].priv && (j != f ==> q.fds[j] == p.fds[j])
    ensures FcntlPool(p, f, OtherCommand, mask) == (p, Fail(EINVAL))
  {
  }

  /** The pools differ in the lock bit of f at most. */
  ghost predicate SameButLock(p: Pool, q: Pool, f: nat)
    requires f < |p.fds|
  {
    && |q.fds| == |p.fds| && q.maxFd == p.maxFd
    && q.fds[f].dev == p.fds[f].dev && q.fds[f].priv == p.fds[f].priv
    && (forall bit :: bit != 31 ==> (bit in q.fds[f].flags <==> bit in p.fds[f].flags))
    && (forall j :: 0 <= j < |p.fds| && j != f ==> q.fds[j] == p.fds[j])
  }

  /** What ioctl answers: on a device the lock is granted exactly if no other descriptor below the mark is of the same
      device, and released always; every other request goes to the driver and leaves the pool alone. */
  lemma IoctlAnswers(p: Pool, f: nat, req: Request, driver: DriverIoctl)
    requires Inv(p) && Open(p, f)
    ensures var (q, r) := IoctlPool(p, f, req, driver);
      && SameButLock(p, q, f)
      && if IsDev(p.fds[f].flags) && req == TIOCEXCL then
           if exists j :: 0 <= j < p.maxFd && j != f && p.fds[j].dev == p.fds[f].dev then q == p && r == Fail(EACCES)
           else r == Ok(0) && IsExcl(q.fds[f].flags)
         else if IsDev(p.fds[f].flags) && req == TIOCNXCL then r == Ok(0) && !IsExcl(q.fds[f].flags)
         else q == p && r == if driver.NoIoctl? then Fail(ENOTTY)
                             else if driver.rc < 0 then Fail(Driver(-driver.rc)) else Ok(driver.rc)
  {
  }

  /** Releasing the lock undoes taking it. */
  lemma UnlockUndoesLock(p: Pool, f: nat, driver: DriverIoctl)
    requires Inv(p) && Open(p, f) && IsDev(p.fds[f].flags) && !IsExcl(p.fds[f].flags)
    ensures IoctlPool(IoctlPool(p, f, TIOCEXCL, driver).0, f, TIOCNXCL, driver) == (p, Ok(0))
  {
    var q := IoctlPool(p, f, TIOCEXCL, driver).0;
    var t := IoctlPool(q, f, TIOCNXCL, driver).0;
    assert t.fds[f].flags == p.fds[f].flags;
    assert t.fds == p.fds;
  }

  /** A negative descriptor is refused, and nothing changes. */
  lemma NegativeIsRefused(p: Pool, f: int, rval: int, req: Request, driver: DriverIoctl, cmd: Command, mask: Word)
    requires Inv(p) && f < 0 && mask !! ALT_FD_FLAGS_MASK
    ensures ClosePool(p, f, rval) == IoctlPool(p, f, req, driver) == FcntlPool(p, f, cmd, mask) == (p, Fail(EBADFD))
  {
  }

  /** Redirecting a standard descriptor makes it what a plain open would have made of the lowest free one, which is
      free again; all other descriptors stay.  If the open fails all open descriptors stay. */
  lemma RedirectMoves(p: Pool, s: nat, dev: Dev, flags: Word, status: int, j: nat)
    requires Inv(p) && s < 3 && j < ALT_MAX_FD
    ensures var (q, r) := OpenPool(p, dev, flags, status);
      var t := RedirectPool(p, s, dev, flags, status);
      && Inv(t) && t.maxFd == q.maxFd
      && (Open(t, j) <==> Open(p, j))
      && (Open(p, j) && j != s ==> t.fds[j] == p.fds[j])
      && (if r.Ok? then 3 <= r.value < ALT_MAX_FD && t.fds[s] == q.fds[r.value] && t.fds[s].dev == dev
          else t.fds[s] == p.fds[s])
  {
    RedirectKeepsInv(p, s, dev, flags, status);
    OpenTakesLowest(p, dev, flags, status, j);
    OpenTakesLowest(p, dev, flags, status, s);
  }

  // ------------------------------------------------------------------ exclusive access

  /** The descriptor f is the only open one of its device. */
  ghost predicate Sole(p: Pool, f: nat)
    requires f < |p.fds|
  {
    forall j :: 0 <= j < |p.fds| && j != f ==> p.fds[j].dev != p.fds[f].dev
  }

  ghost predicate LockHeld(p: Pool, f: nat, dev: Dev) {
    f < |p.fds| && dev.Device? && p.fds[f].dev == dev && IsExcl(p.fds[f].flags) && Sole(p, f)
  }

  /** TIOCEXCL grants a lock that is really exclusive exactly when the descriptor at the high-water mark, which the
      scan leaves out, is not another one of the same device. */
  lemma GrantIsExclusiveIff(p: Pool, f: nat)
    requires Inv(p) && Open(p, f) && IsDev(p.fds[f].flags)
    requires IoctlPool(p, f, TIOCEXCL, NoIoctl).1 == Ok(0)
    ensures LockHeld(IoctlPool(p, f, TIOCEXCL, NoIoctl).0, f, p.fds[f].dev) <==>
            p.maxFd == f || p.fds[p.maxFd].dev != p.fds[f].dev
  {
    var q := IoctlPool(p, f, TIOCEXCL, NoIoctl).0;
    assert forall j :: 0 <= j < |p.fds| ==> q.fds[j].dev == p.fds[j].dev;
    assert !SharedBelow(p, f, p.maxFd);
    if p.maxFd == f || p.fds[p.maxFd].dev != p.fds[f].dev {
      forall j | 0 <= j < |q.fds| && j != f
        ensures q.fds[j].dev != q.fds[f].dev
      {
        if j < p.maxFd {
          assert !(p.fds[j].dev == p.fds[f].dev);
        }
      }
    }
  }

  /** The condition can fail: after two opens of a free device the first descriptor is granted the lock although
      the second one is open. */
  lemma GrantCanBeShared()
    ensures var cs := [CallOpen(Device(7), {}, 0), CallOpen(Device(7), {}, 0), CallIoctl(3, TIOCEXCL, NoIoctl)];
      AllDefined(Initial(), cs) && var p := Run(Initial(), cs);
      IsExcl(p.fds[3].flags) && p.fds[3].dev == p.fds[4].dev == Device(7)
  {
    var p0 := Initial();
    var free := p0.fds;
    assert LowestFree(free) == 3 by {
      assert free[3].dev == NoDev;
    }
    var p1 := Step(p0, CallOpen(Device(7), {}, 0)).0;
    assert !LockedBelow(Allocated(p0, 3, Device(7), {}), 3, 4);
    StepKeepsInv(p0, CallOpen(Device(7), {}, 0));
    assert LowestFree(p1.fds) == 4 by {
      assert p1.fds[4].dev == NoDev && p1.fds[3].dev != NoDev;
    }
    var p2 := Step(p1, CallOpen(Device(7), {}, 0)).0;
    assert !LockedBelow(Allocated(p1, 4, Device(7), {}), 4, 5);
    StepKeepsInv(p1, CallOpen(Device(7), {}, 0));
    assert !SharedBelow(p2, 3, 4);
    RunThree(p0, CallOpen(Device(7), {}, 0), CallOpen(Device(7), {}, 0), CallIoctl(3, TIOCEXCL, NoIoctl));
  }

  /** The calls that end the lock of f: closing it, unless it is a standard descriptor, which close does not free;
      asking for its release; redirecting it elsewhere. */
  ghost predicate Clears(p: Pool, c: Call, f: nat)
    requires Inv(p)
  {
    match c
    case CallClose(g, _) => g == f && f > 2
    case CallIoctl(g, req, _) => g == f && req == TIOCNXCL
    case CallRedirect(s, dev, flags, status) => s == f && OpenPool(p, dev, flags, status).1.Ok?
    case _ => false
  }

  /** While f holds the lock on its device, nobody can open the device. */
  lemma LockedIsRefused(p: Pool, f: nat, dev: Dev, flags: Word, status: int)
    requires Inv(p) && LockHeld(p, f, dev)
    ensures OpenPool(p, dev, flags, status).1.Fail?
  {
    if LowestFree(p.fds) < |p.fds| {
      OpenRefusedIff(p, dev, flags, status);
    }
  }

  lemma OpenKeepsLock(p: Pool, f: nat, dev: Dev, other: Dev, flags: Word, status: int)
    requires Inv(p) && LockHeld(p, f, dev)
    ensures LockHeld(OpenPool(p, other, flags, status).0, f, dev)
  {
    if other == dev {
      LockedIsRefused(p, f, dev, flags, status);
    }
    var q := OpenPool(p, other, flags, status).0;
    forall j: nat | j < |p.fds|
      ensures q.fds[j] == p.fds[j] || (p.fds[j].dev == NoDev && q.fds[j].dev in {other, NoDev})
    {
      OpenTakesLowest(p, other, flags, status, j);
    }
    OpenTakesLowest(p, other, flags, status, f);
  }

  /** One call keeps the lock exclusive, unless it is one that ends it. */
  lemma StepKeepsLock(p: Pool, c: Call, f: nat, dev: Dev)
    requires Inv(p) && Defined(p, c) && LockHeld(p, f, dev)
    ensures LockHeld(Step(p, c).0, f, dev) <==> !Clears(p, c, f)
  {
    match c
    case CallOpen(other, flags, status) => OpenKeepsLock(p, f, dev, other, flags, status);
    case CallClose(g, rval) =>
    case CallIoctl(g, req, driver) =>
    case CallFcntl(g, cmd, mask) =>
    case CallRedirect(s, other, flags, status) =>
      OpenKeepsLock(p, f, dev, other, flags, status);
      OpenTakesLowest(p, other, flags, status, f);
      if other == dev {
        LockedIsRefused(p, f, dev, flags, status);
      }
  }

  /** No call of the list ends the lock of f. */
  ghost predicate NoneClears(p: Pool, cs: seq<Call>, f: nat)
    requires Inv(p) && AllDefined(p, cs)
    decreases |cs|
  {
    cs != [] ==> !Clears(p, cs[0], f) && (StepKeepsInv(p, cs[0]); NoneClears(Step(p, cs[0]).0, cs[1..], f))
  }

  /** Exclusive access over whole runs: from a grant that was exclusive on, until a call ends the lock, no sequence
      of calls leaves a second open descriptor on the device. */
  lemma {:induction false} LockStaysExclusive(p: Pool, cs: seq<Call>, f: nat, dev: Dev)
    requires Inv(p) && AllDefined(p, cs) && NoneClears(p, cs, f)
    requires LockHeld(p, f, dev)
    ensures LockHeld(Run(p, cs), f, dev)
    decreases |cs|
  {
    if cs != [] {
      StepKeepsInv(p, cs[0]);
      StepKeepsLock(p, cs[0], f, dev);
      LockStaysExclusive(Step(p, cs[0]).0, cs[1..], f, dev);
    }
  }

  /** Contrary to what the comment on the lock says, closing a standard descriptor does not release it: the device
      stays closed to everyone. */
  lemma ClosingStandardKeepsLock(p: Pool, f: nat, dev: Dev, rval: int, flags: Word, status: int)
    requires Inv(p) && LockHeld(p, f, dev) && f < 3
    ensures var q := ClosePool(p, f, rval).0; Inv(q) && LockHeld(q, f, dev) && OpenPool(q, dev, flags, status).1.Fail?
  {
    LockedIsRefused(p, f, dev, flags, status);
  }

  /** Such a lock is reached from the initial pool: standard output is redirected to a device, locked and closed, and
      from then on the device cannot be opened. */
  lemma LockOutlivesClose(flags: Word, status: int)
    ensures var cs := [CallRedirect(1, Device(7), {}, 0), CallIoctl(1, TIOCEXCL, NoIoctl), CallClose(1, 0)];
      AllDefined(Initial(), cs) && var p := Run(Initial(), cs);
      LockHeld(p, 1, Device(7)) && OpenPool(p, Device(7), flags, status).1.Fail?
  {
    var p0 := Initial();
    var free := p0.fds;
    assert LowestFree(free) == 3 by {
      assert free[3].dev == NoDev;
    }
    assert !LockedBelow(Allocated(p0, 3, Device(7), {}), 3, 4);
    StepKeepsInv(p0, CallRedirect(1, Device(7), {}, 0));
    var p1 := Step(p0, CallRedirect(1, Device(7), {}, 0)).0;
    assert p1.fds[1].dev == Device(7) && IsDev(p1.fds[1].flags) && p1.maxFd == 3 && p1.fds[3].dev == NoDev;
    assert !SharedBelow(p1, 1, 3);
    GrantIsExclusiveIff(p1, 1);
    StepKeepsInv(p1, CallIoctl(1, TIOCEXCL, NoIoctl));
    var p2 := Step(p1, CallIoctl(1, TIOCEXCL, NoIoctl)).0;
    ClosingStandardKeepsLock(p2, 1, Device(7), 0, flags, status);
    RunThree(p0, CallRedirect(1, Device(7), {}, 0), CallIoctl(1, TIOCEXCL, NoIoctl), CallClose(1, 0));
  }
}
