/** libdga's list of grabbed colormaps and the reference-counted devices they hold. */
module GrabList {

  /** A grabbed colormap; ptr is its address, and -1 stands for no descriptor. */
  datatype Cmap = Cmap(ptr: nat, token: nat, grabCount: nat, devFd: int, lockFd: int, defFd: int, instFd: int)

  datatype Dev = Dev(name: string, fd: int, refcnt: nat)

  // ---------- Counting ----------

  function Holds(c: Cmap, fd: int): nat {
    (if c.defFd == fd then 1 else 0) + (if c.instFd == fd then 1 else 0)
  }

  /** How many handles on a descriptor the listed colormaps hold. */
  function Handles(cs: seq<Cmap>, fd: int): nat {
    if cs == [] then 0 else Holds(cs[0], fd) + Handles(cs[1..], fd)
  }

  /** The count kept for a descriptor, zero if it is not listed. */
  function RefCount(ds: seq<Dev>, fd: int): nat {
    if ds == [] then 0 else if ds[0].fd == fd then ds[0].refcnt else RefCount(ds[1..], fd)
  }

  /** How often a token is grabbed, zero if it is not listed. */
  function GrabCount(cs: seq<Cmap>, token: nat): nat {
    if cs == [] then 0 else if cs[0].token == token then cs[0].grabCount else GrabCount(cs[1..], token)
  }

  ghost predicate DevsOk(ds: seq<Dev>) {
    && (forall i, j :: 0 <= i < j < |ds| ==> ds[i].name != ds[j].name && ds[i].fd != ds[j].fd)
    && (forall i :: 0 <= i < |ds| ==> ds[i].refcnt > 0 && ds[i].fd >= 0)
  }

  ghost predicate CmapsOk(cs: seq<Cmap>) {
    && (forall i, j :: 0 <= i < j < |cs| ==> cs[i].token != cs[j].token && cs[i].ptr != cs[j].ptr)
    && (forall i :: 0 <= i < |cs| ==> cs[i].grabCount > 0)
  }

  /** Every device's count is the number of handles the listed colormaps hold on it. */
  ghost predicate Balanced(cs: seq<Cmap>, ds: seq<Dev>) {
    forall fd: int :: fd >= 0 ==> RefCount(ds, fd) == Handles(cs, fd)
  }

  function FindName(ds: seq<Dev>, name: string): (i: nat)
    ensures i <= |ds| && (i < |ds| ==> ds[i].name == name) && forall j :: 0 <= j < i ==> ds[j].name != name
  {
    if ds == [] || ds[0].name == name then 0 else 1 + FindName(ds[1..], name)
  }

  function FindFd(ds: seq<Dev>, fd: int): (i: nat)
    ensures i <= |ds| && (i < |ds| ==> ds[i].fd == fd) && forall j :: 0 <= j < i ==> ds[j].fd != fd
  {
    if ds == [] || ds[0].fd == fd then 0 else 1 + FindFd(ds[1..], fd)
  }

  function FindToken(cs: seq<Cmap>, token: nat): (i: nat)
    ensures i <= |cs| && (i < |cs| ==> cs[i].token == token) && forall j :: 0 <= j < i ==> cs[j].token != token
  {
    if cs == [] || cs[0].token == token then 0 else 1 + FindToken(cs[1..], token)
  }

  /** The device list after one more, or one less, user of a device. */
  function Opened(ds: seq<Dev>, name: string, newFd: int): seq<Dev> {
    var i := FindName(ds, name);
    if i < |ds| then ds[i := ds[i].(refcnt := ds[i].refcnt + 1)] else [Dev(name, newFd, 1)] + ds
  }

  function Closed(ds: seq<Dev>, fd: int): seq<Dev> {
    var i := FindFd(ds, fd);
    if i == |ds| then ds
    else if ds[i].refcnt <= 1 then ds[..i] + ds[i + 1..]
    else ds[i := ds[i].(refcnt := ds[i].refcnt - 1)]
  }

  lemma {:induction false} RefCountAt(ds: seq<Dev>, fd: int)
    ensures RefCount(ds, fd) == if FindFd(ds, fd) < |ds| then ds[FindFd(ds, fd)].refcnt else 0
  {
    if ds != [] && ds[0].fd != fd { RefCountAt(ds[1..], fd); }
  }

  lemma FindFdAt(ds: seq<Dev>, i: nat)
    requires DevsOk(ds) && i < |ds|
    ensures FindFd(ds, ds[i].fd) == i
  {
  }

  lemma ClosedIsOk(ds: seq<Dev>, fd: int)
    requires DevsOk(ds)
    ensures DevsOk(Closed(ds, fd))
  {
    hide FindFd;
  }

  lemma OpenedIsOk(ds: seq<Dev>, name: string, newFd: int)
    requires DevsOk(ds) && newFd >= 0 && forall i :: 0 <= i < |ds| ==> ds[i].fd != newFd
    ensures DevsOk(Opened(ds, name, newFd))
  {
  }

  lemma ClosedAt(ds: seq<Dev>, fd: int, i: nat)
    requires DevsOk(ds) && i < |ds| && ds[i].fd == fd && forall j :: 0 <= j < i ==> ds[j].fd != fd
    ensures RefCount(ds, fd) == ds[i].refcnt > 0
    ensures Closed(ds, fd) == if ds[i].refcnt - 1 == 0 then ds[..i] + ds[i + 1..]
                              else ds[i := ds[i].(refcnt := ds[i].refcnt - 1)]
  {
    RefCountAt(ds, fd);
    assert FindFd(ds, fd) == i;
  }

  lemma ClosedNone(ds: seq<Dev>, fd: int)
    requires forall j :: 0 <= j < |ds| ==> ds[j].fd != fd
    ensures RefCount(ds, fd) == 0 && Closed(ds, fd) == ds
  {
    RefCountAt(ds, fd);
  }

  lemma OpenedAt(ds: seq<Dev>, name: string, newFd: int, i: nat)
    requires DevsOk(ds) && i < |ds| && ds[i].name == name && forall j :: 0 <= j < i ==> ds[j].name != name
    ensures FindName(ds, name) == i && OpenedFd(ds, name, newFd) == ds[i].fd >= 0
    ensures Opened(ds, name, newFd) == ds[i := ds[i].(refcnt := ds[i].refcnt + 1)] && DevsOk(Opened(ds, name, newFd))
  {
    assert FindName(ds, name) == i;
  }

  lemma OpenedFirst(ds: seq<Dev>, name: string, newFd: int)
    requires forall j :: 0 <= j < |ds| ==> ds[j].name != name
    ensures FindName(ds, name) == |ds| && OpenedFd(ds, name, newFd) == newFd
    ensures Opened(ds, name, newFd) == [Dev(name, newFd, 1)] + ds
  {
    assert FindName(ds, name) == |ds|;
  }

  lemma {:induction false} RemovedCounts(ds: seq<Dev>, i: nat, g: int)
    requires i < |ds| && forall j :: 0 <= j < |ds| && j != i ==> ds[j].fd != ds[i].fd
    ensures RefCount(ds[..i] + ds[i + 1..], g) == if g == ds[i].fd then 0 else RefCount(ds, g)
  {
    var es := ds[..i] + ds[i + 1..];
    if i == 0 {
      assert es == ds[1..];
      if g == ds[0].fd { ClosedNone(es, g); }
    } else {
      assert es[0] == ds[0] && es[1..] == ds[1..][..i - 1] + ds[1..][i..];
      RemovedCounts(ds[1..], i - 1, g);
    }
  }

  lemma {:induction false} RecountedCounts(ds: seq<Dev>, i: nat, n: nat, g: int)
    requires i < |ds| && forall j :: 0 <= j < i ==> ds[j].fd != ds[i].fd
    ensures RefCount(ds[i := ds[i].(refcnt := n)], g) == if g == ds[i].fd then n else RefCount(ds, g)
  {
    var es := ds[i := ds[i].(refcnt := n)];
    if i == 0 {
      assert es[1..] == ds[1..];
    } else {
      assert es[0] == ds[0] && es[1..] == ds[1..][i - 1 := ds[i].(refcnt := n)];
      RecountedCounts(ds[1..], i - 1, n, g);
    }
  }

  /** Closing lowers the count of this descriptor by one, and no other. */
  lemma ClosedCounts(ds: seq<Dev>, fd: int, g: int)
    requires DevsOk(ds) && FindFd(ds, fd) < |ds|
    ensures RefCount(Closed(ds, fd), g) == RefCount(ds, g) - if g == fd then 1 else 0
  {
    hide RefCount, FindFd;
    var i := FindFd(ds, fd);
    RefCountAt(ds, fd);
    assert ds[i].refcnt > 0;
    if ds[i].refcnt > 1 { RecountedCounts(ds, i, ds[i].refcnt - 1, g); } else { RemovedCounts(ds, i, g); }
  }

  lemma OpenedCounts(ds: seq<Dev>, name: string, newFd: int, g: int)
    requires DevsOk(ds) && newFd >= 0 && forall i :: 0 <= i < |ds| ==> ds[i].fd != newFd
    ensures RefCount(Opened(ds, name, newFd), g) == RefCount(ds, g) + if g == OpenedFd(ds, name, newFd) then 1 else 0
  {
    var i, k := FindName(ds, name), FindFd(ds, g);
    var es := Opened(ds, name, newFd);
    OpenedIsOk(ds, name, newFd);
    RefCountAt(ds, g);
    RefCountAt(es, g);
    if i < |ds| {
      if k < |ds| { FindFdAt(es, k); }
    } else {
      assert es[1..] == ds;
      if g == newFd { FindFdAt(es, 0); }
    }
  }

  /** Closing right after opening gives the old list back. */
  lemma CloseUndoesOpen(ds: seq<Dev>, name: string, newFd: int)
    requires DevsOk(ds) && newFd >= 0 && forall i :: 0 <= i < |ds| ==> ds[i].fd != newFd
    ensures Closed(Opened(ds, name, newFd), OpenedFd(ds, name, newFd)) == ds
  {
    var i := FindName(ds, name);
    if i < |ds| {
      OpenedIsOk(ds, name, newFd);
      FindFdAt(Opened(ds, name, newFd), i);
      assert ds[i].refcnt > 0;
      hide DevsOk, FindFd;
      LowerUndoesRaise(ds, i);
    } else {
      hide DevsOk;
      DropFirst(Dev(name, newFd, 1), ds);
    }
  }

  lemma DropFirst(d: Dev, ds: seq<Dev>)
    requires d.refcnt <= 1
    ensures Closed([d] + ds, d.fd) == ds
  {
  }

  lemma LowerUndoesRaise(ds: seq<Dev>, i: nat)
    requires i < |ds|
    ensures var es := ds[i := ds[i].(refcnt := ds[i].refcnt + 1)];
      es[i := es[i].(refcnt := es[i].refcnt - 1)] == ds
  {
  }

  /** The descriptor an opening returns: the listed one, or the new one. */
  function OpenedFd(ds: seq<Dev>, name: string, newFd: int): int {
    var i := FindName(ds, name);
    if i < |ds| then ds[i].fd else newFd
  }

  /** Counting uses does not change which descriptors are listed. */
  lemma DevsKept(ds: seq<Dev>, i: nat, n: nat)
    requires i < |ds|
    ensures Devs(ds[i := ds[i].(refcnt := n)]) == Devs(ds)
  {
    var es := ds[i := ds[i].(refcnt := n)];
    forall fd ensures fd in Devs(es) <==> fd in Devs(ds) {
      if fd in Devs(ds) {
        var j :| 0 <= j < |ds| && ds[j].fd == fd;
        assert es[j] in es && es[j].fd == fd;
      }
      if fd in Devs(es) {
        var j :| 0 <= j < |es| && es[j].fd == fd;
        assert ds[j] in ds && ds[j].fd == fd;
      }
    }
  }

  lemma NotListed(ds: seq<Dev>, open: set<int>, fd: int)
    requires Devs(ds) <= open && fd !in open
    ensures forall i :: 0 <= i < |ds| ==> ds[i].fd != fd
  {
    forall i | 0 <= i < |ds| ensures ds[i].fd != fd {
      assert ds[i] in ds;
    }
  }

  /** A descriptor is listed if it is the first use of a device, or was already. */
  lemma OpenedDevs(ds: seq<Dev>, name: string, newFd: int)
    requires DevsOk(ds) && newFd >= 0 && forall i :: 0 <= i < |ds| ==> ds[i].fd != newFd
    ensures var es := Opened(ds, name, newFd); Devs(es) == Devs(ds) + LastUse(es, OpenedFd(ds, name, newFd))
  {
    var i, es := FindName(ds, name), Opened(ds, name, newFd);
    OpenedCounts(ds, name, newFd, OpenedFd(ds, name, newFd));
    if i < |ds| {
      DevsKept(ds, i, ds[i].refcnt + 1);
      FindFdAt(ds, i);
      RefCountAt(ds, ds[i].fd);
    } else {
      ClosedNone(ds, newFd);
    }
  }

  lemma OpenedUnder(ds: seq<Dev>, name: string, newFd: int)
    ensures var es := Opened(ds, name, newFd);
      && ListedUnder(es, name, OpenedFd(ds, name, newFd))
      && forall n, g :: ListedUnder(ds, n, g) ==> ListedUnder(es, n, g)
  {
    var i, es := FindName(ds, name), Opened(ds, name, newFd);
    var at := if i < |ds| then i else 0;
    assert es[at].name == name && es[at].fd == OpenedFd(ds, name, newFd);
    forall n, g | ListedUnder(ds, n, g) ensures ListedUnder(es, n, g) {
      var j :| 0 <= j < |ds| && ds[j].name == n && ds[j].fd == g;
      var k := if i < |ds| then j else j + 1;
      assert es[k].name == n && es[k].fd == g;
    }
  }

  /** A closed descriptor is no longer listed, and no new one is. */
  lemma ClosedDevs(ds: seq<Dev>, fd: int)
    requires DevsOk(ds)
    ensures Devs(Closed(ds, fd)) <= Devs(ds)
    ensures RefCount(ds, fd) == 1 ==> fd !in Devs(Closed(ds, fd))
  {
    var i := FindFd(ds, fd);
    RefCountAt(ds, fd);
    if i < |ds| && ds[i].refcnt > 1 { DevsKept(ds, i, ds[i].refcnt - 1); }
  }

  lemma ClosedTwice(ds: seq<Dev>, c: Cmap)
    requires DevsOk(ds)
    ensures Devs(CloseIf(CloseIf(ds, c.defFd), c.instFd)) <= Devs(ds)
  {
    ClosedIsOk(ds, c.defFd);
    ClosedDevs(ds, c.defFd);
    ClosedDevs(CloseIf(ds, c.defFd), c.instFd);
  }

  lemma OpenedNames(ds: seq<Dev>, name: string, newFd: int)
    ensures forall n :: Listed(Opened(ds, name, newFd), n) <==> Listed(ds, n) || n == name
  {
    var i, es := FindName(ds, name), Opened(ds, name, newFd);
    forall n ensures Listed(es, n) <==> Listed(ds, n) || n == name {
      if i < |ds| {
        assert forall j :: 0 <= j < |ds| ==> es[j].name == ds[j].name;
        assert ds[i].name == name;
      } else {
        assert es[0].name == name && forall j :: 0 <= j < |ds| ==> es[j + 1] == ds[j];
      }
    }
  }

  /** One more use of the device, by this name; it is the first exactly when the name was not listed. */
  lemma OpenedFacts(ds: seq<Dev>, name: string, newFd: int)
    requires DevsOk(ds) && newFd >= 0 && forall i :: 0 <= i < |ds| ==> ds[i].fd != newFd
    ensures var es, fd := Opened(ds, name, newFd), OpenedFd(ds, name, newFd);
      && Closed(es, fd) == ds
      && (forall g: int :: RefCount(es, g) == RefCount(ds, g) + if g == fd then 1 else 0)
      && (RefCount(es, fd) == 1 <==> FindName(ds, name) == |ds|)
      && fd >= 0 && forall n :: Listed(es, n) <==> Listed(ds, n) || n == name
  {
    hide Opened, Closed, Listed, RefCount;
    OpenedNames(ds, name, newFd);
    forall g: int ensures RefCount(Opened(ds, name, newFd), g) ==
      RefCount(ds, g) + if g == OpenedFd(ds, name, newFd) then 1 else 0
    {
      OpenedCounts(ds, name, newFd, g);
    }
    CloseUndoesOpen(ds, name, newFd);
    RefCountAt(ds, OpenedFd(ds, name, newFd));
    if FindName(ds, name) < |ds| { FindFdAt(ds, FindName(ds, name)); }
  }

  lemma {:induction false} GrabCountAt(cs: seq<Cmap>, token: nat)
    ensures GrabCount(cs, token) == if FindToken(cs, token) < |cs| then cs[FindToken(cs, token)].grabCount else 0
  {
    if cs != [] && cs[0].token != token { GrabCountAt(cs[1..], token); }
  }

  lemma {:induction false} HandlesConcat(a: seq<Cmap>, b: seq<Cmap>, fd: int)
    ensures Handles(a + b, fd) == Handles(a, fd) + Handles(b, fd)
  {
    if a == [] { assert a + b == b; }
    else {
      assert (a + b)[0] == a[0] && (a + b)[1..] == a[1..] + b;
      HandlesConcat(a[1..], b, fd);
    }
  }

  lemma HandlesWithout(cs: seq<Cmap>, i: nat, fd: int)
    requires i < |cs|
    ensures Handles(cs, fd) == Handles(cs[..i] + cs[i + 1..], fd) + Holds(cs[i], fd)
  {
    assert cs == cs[..i] + ([cs[i]] + cs[i + 1..]);
    HandlesConcat(cs[..i], [cs[i]] + cs[i + 1..], fd);
    HandlesConcat(cs[..i], cs[i + 1..], fd);
  }

  lemma HandlesRecounted(cs: seq<Cmap>, i: nat, n: nat, fd: int)
    requires i < |cs|
    ensures Handles(cs[i := cs[i].(grabCount := n)], fd) == Handles(cs, fd)
  {
    var c := cs[i].(grabCount := n);
    HandlesWithout(cs, i, fd);
    HandlesWithout(cs[i := c], i, fd);
    assert cs[i := c][..i] + cs[i := c][i + 1..] == cs[..i] + cs[i + 1..];
  }

  // ---------- The program ----------

  const CM_LOCKDEV := 0
  const CM_WINLOCK := 1

  /** What the shared page of a colormap says. */
  datatype Page = Page(lockType: int, ownLockDevice: bool, isDefault: bool, defName: string, instName: string)

  /** How the system calls of one grab turn out. */
  datatype World = World(memory: bool, infoGood: bool, infoMaps: bool, deviceOpens: bool, lockDeviceOpens: bool,
                         lockMaps: bool, unlockMaps: bool, winlockAttaches: bool,
                         defOpens: bool, defMemory: bool, instOpens: bool, instMemory: bool)

  predicate Listed(ds: seq<Dev>, name: string) {
    exists i :: 0 <= i < |ds| && ds[i].name == name
  }

  /** A device can be had: it is open already, or it opens and there is memory for its record. */
  predicate Opens(ds: seq<Dev>, name: string, opens: bool, memory: bool) {
    Listed(ds, name) || (opens && memory)
  }

  /** The info page, the framebuffer and the lock pages can be had. */
  predicate DeviceGood(fd: int, page: Page, w: World) {
    && w.infoGood && w.infoMaps && (fd == -1 ==> w.deviceOpens)
    && (page.lockType == CM_LOCKDEV ==> (page.ownLockDevice ==> w.lockDeviceOpens) && w.lockMaps && w.unlockMaps)
    && (page.lockType == CM_WINLOCK ==> w.winlockAttaches)
  }

  /** The page names a device for the default colormap. */
  predicate UsesDefault(page: Page) {
    page.isDefault && page.defName != ""
  }

  predicate SunwindowsGood(ds: seq<Dev>, page: Page, w: World) {
    && (UsesDefault(page) ==> Opens(ds, page.defName, w.defOpens, w.defMemory))
    && (page.instName != "" ==>
          (UsesDefault(page) && page.defName == page.instName) || Opens(ds, page.instName, w.instOpens, w.instMemory))
  }

  /** When a grab works: the token is listed already, or everything it takes can be had. */
  predicate Works(cs: seq<Cmap>, ds: seq<Dev>, fd: int, token: nat, page: Page, w: World) {
    FindToken(cs, token) < |cs| || (w.memory && DeviceGood(fd, page, w) && SunwindowsGood(ds, page, w))
  }

  /** How the system numbers a new descriptor, given those that are open: any way that tells them apart,
      so that a number may come again once it is closed. */
  type Numbering = set<int> -> nat

  ghost predicate TellsApart(next: Numbering) {
    forall open: set<int> :: next(open) !in open
  }

  /** The descriptors of the listed devices. */
  function Devs(ds: seq<Dev>): set<int> {
    set d | d in ds :: d.fd
  }

  /** What cleanup closes besides devices: the lock device if it has its own, and with cflag the
      framebuffer. */
  function Gives(c: Cmap, cflag: bool, lockType: int): set<int> {
    OwnLock(c, lockType) + if cflag then {c.devFd} else {}
  }

  /** The framebuffer is the caller's descriptor or one that was not open; so is a lock device of its own,
      and otherwise the framebuffer serves for the lock. */
  predicate HoldsDevice(c: Cmap, fd: int, page: Page, was: set<int>) {
    && (if fd == -1 then c.devFd >= 0 && c.devFd !in was else c.devFd == fd)
    && if page.lockType != CM_LOCKDEV then c.lockFd == -1
       else if page.ownLockDevice then c.lockFd >= 0 && c.lockFd !in was + {c.devFd}
       else c.lockFd == c.devFd
  }

  /** The device is listed by this name, with this descriptor. */
  predicate ListedUnder(ds: seq<Dev>, name: string, fd: int) {
    exists i :: 0 <= i < |ds| && ds[i].name == name && ds[i].fd == fd
  }

  /** A handle for each device the page names. */
  predicate HoldsSunwindows(c: Cmap, page: Page, ds: seq<Dev>) {
    && (if UsesDefault(page) then ListedUnder(ds, page.defName, c.defFd) else c.defFd == -1)
    && (if page.instName != "" then ListedUnder(ds, page.instName, c.instFd) else c.instFd == -1)
  }

  class Libdga {
    var grabbed: seq<Cmap>
    var devlist: seq<Dev>
    var open: set<int>           // descriptors open in this process
    const next: Numbering
    var nextPtr: nat

    constructor (next: Numbering)
      requires TellsApart(next)
      ensures Valid() && grabbed == [] && open == {}
    {
      this.next := next;
      grabbed, devlist, open, nextPtr := [], [], {}, 0;
    }

    ghost predicate Valid()
      reads this
    {
      && CmapsOk(grabbed) && DevsOk(devlist) && Balanced(grabbed, devlist) && Fresh()
    }

    /** The listed devices are open, and new descriptors and addresses differ from those in use. */
    ghost predicate Fresh()
      reads this
    {
      && TellsApart(next) && Devs(devlist) <= open
      && (forall i :: 0 <= i < |grabbed| ==> grabbed[i].ptr < nextPtr)
    }

    method OpenFile(works: bool) returns (fd: int)
      requires Fresh()
      modifies this`open
      ensures Fresh()
      ensures if works then fd == next(old(open)) && fd !in old(open) && open == old(open) + {fd}
              else fd == -1 && open == old(open)
    {
      if !works { return -1; }
      fd := next(open);
      open := open + {fd};
    }

    method CloseFile(fd: int)
      modifies this`open
      ensures open == old(open) - {fd}
    {
      open := open - {fd};
    }

    method SunwindowsOpen(name: string, opens: bool, memory: bool) returns (fd: int)
      requires DevsOk(devlist) && Fresh()
      modifies this`devlist, this`open
      ensures DevsOk(devlist) && Fresh()
      ensures fd >= 0 <==> Opens(old(devlist), name, opens, memory)
      ensures fd < 0 ==> fd == -1 && devlist == old(devlist) && open == old(open)
      ensures fd >= 0 ==>
        && devlist == Opened(old(devlist), name, next(old(open))) && fd == OpenedFd(old(devlist), name, next(old(open)))
        && open == old(open) + if FindName(old(devlist), name) < |old(devlist)| then {} else {fd}
    {
      hide DevsOk, Opened, OpenedFd, FindName;
      var i := 0;
      while i < |devlist|
        invariant i <= |devlist| && forall j :: 0 <= j < i ==> devlist[j].name != name
      {
        if devlist[i].name == name {
          OpenedAt(devlist, name, next(open), i);
          DevsKept(devlist, i, devlist[i].refcnt + 1);
          devlist := devlist[i := devlist[i].(refcnt := devlist[i].refcnt + 1)];
          return devlist[i].fd;
        }
        i := i + 1;
      }
      OpenedFirst(devlist, name, next(open));
      NotListed(devlist, open, next(open));
      fd := OpenFile(opens);
      if fd < 0 { return -1; }
      if !memory {
        CloseFile(fd);
        return -1;
      }
      OpenedIsOk(devlist, name, fd);
      devlist := [Dev(name, fd, 1)] + devlist;
    }

    /** Drops one use of the device; the descriptor is closed exactly when that was the last. */
    method SunwindowsClose(fd: int)
      requires DevsOk(devlist) && Fresh()
      modifies this`devlist, this`open
      ensures DevsOk(devlist) && Fresh() && devlist == Closed(old(devlist), fd)
      ensures open == if RefCount(old(devlist), fd) == 1 then old(open) - {fd} else old(open)
    {
      hide DevsOk, RefCount, Closed, Devs;
      ClosedIsOk(devlist, fd);
      ClosedDevs(devlist, fd);
      for i := 0 to |devlist|
        invariant devlist == old(devlist) && open == old(open) && forall j :: 0 <= j < i ==> devlist[j].fd != fd
      {
        if devlist[i].fd == fd {
          ClosedAt(devlist, fd, i);
          if devlist[i].refcnt - 1 == 0 {
            CloseFile(fd);
            devlist := devlist[..i] + devlist[i + 1..];
          } else {
            devlist := devlist[i := devlist[i].(refcnt := devlist[i].refcnt - 1)];
          }
          return;
        }
      }
      ClosedNone(devlist, fd);
    }

    /** cleanup_lockpages: give back what c holds and take it off the list. */
    method Cleanup(c: Cmap, cflag: bool, lockType: int)
      requires DevsOk(devlist) && Fresh() && Gives(c, cflag, lockType) !! Devs(devlist)
      modifies this`grabbed, this`devlist, this`open
      ensures DevsOk(devlist) && Fresh()
      ensures devlist == CloseIf(CloseIf(old(devlist), c.defFd), c.instFd)
      ensures open == Kept(old(open), old(devlist), c, cflag, lockType)
      ensures grabbed == Without(old(grabbed), c.ptr)
    {
      hide DevsOk, RefCount, Closed, Without, Devs;
      ClosedTwice(devlist, c);
      if c.defFd >= 0 { SunwindowsClose(c.defFd); }
      if c.instFd >= 0 { SunwindowsClose(c.instFd); }
      if lockType == CM_LOCKDEV {
        if c.lockFd != -1 && c.lockFd != c.devFd { CloseFile(c.lockFd); }
      }
      if cflag { CloseFile(c.devFd); }
      Unlink(c.ptr);
    }

    method Unlink(ptr: nat)
      requires Fresh()
      modifies this`grabbed
      ensures Fresh() && grabbed == Without(old(grabbed), ptr)
    {
      for i := 0 to |grabbed|
        invariant grabbed == old(grabbed) && forall j :: 0 <= j < i ==> grabbed[j].ptr != ptr
      {
        if grabbed[i].ptr == ptr {
          assert FindPtr(grabbed, ptr) == i;
          grabbed := grabbed[..i] + grabbed[i + 1..];
          return;
        }
      }
      assert FindPtr(grabbed, ptr) == |grabbed|;
    }

    /** The part of dga_cm_grab up to the lock pages. On failure cleanType is the lock type, and cflag
        the flag, that cleanup is called with. */
    method AcquireDevice(c0: Cmap, fd: int, page: Page, w: World) returns (ok: bool, c: Cmap, cflag: bool, cleanType: int)
      requires Fresh() && c0.devFd == c0.lockFd == c0.defFd == c0.instFd == -1 && (fd == -1 || fd in open)
      modifies this`open
      ensures Fresh()
      ensures c == c0.(devFd := c.devFd, lockFd := c.lockFd)
      ensures c.lockFd != -1 && c.lockFd != c.devFd ==> cleanType == CM_LOCKDEV
      ensures open == old(open) + Gives(c, cflag, cleanType) && old(open) !! Gives(c, cflag, cleanType)
      ensures ok <==> DeviceGood(fd, page, w)
      ensures ok ==> cflag == (fd == -1) && cleanType == page.lockType && HoldsDevice(c, fd, page, old(open)) && c.devFd in open
    {
      c, cflag, cleanType := c0, false, CM_LOCKDEV;
      // the info page's own descriptor is needed only until it is mapped
      var infoFd := OpenFile(w.infoGood);
      if infoFd < 0 { return false, c, cflag, cleanType; }
      CloseFile(infoFd);
      if !w.infoMaps { return false, c, cflag, cleanType; }
      // only a descriptor opened here is closed on failure
      if fd == -1 {
        var devFd := OpenFile(w.deviceOpens);
        if devFd < 0 { return false, c, cflag, cleanType; }
        cflag, c := true, c.(devFd := devFd);
      } else {
        c := c.(devFd := fd);
      }
      cleanType := page.lockType;
      if page.lockType == CM_LOCKDEV {
        if page.ownLockDevice {
          var lockFd := OpenFile(w.lockDeviceOpens);
          if lockFd < 0 { return false, c, cflag, cleanType; }
          c := c.(lockFd := lockFd);
        } else {
          c := c.(lockFd := c.devFd);
        }
        return w.lockMaps && w.unlockMaps, c, cflag, cleanType;
      } else if page.lockType == CM_WINLOCK {
        return w.winlockAttaches, c, cflag, cleanType;
      }
      ok := true;
    }

    /** The part of dga_cm_grab that opens the SunWindows devices. */
    method AcquireSunwindows(c0: Cmap, page: Page, w: World) returns (ok: bool, c: Cmap)
      requires DevsOk(devlist) && Fresh() && c0.defFd == c0.instFd == -1
      modifies this`devlist, this`open
      ensures DevsOk(devlist) && Fresh() && c == c0.(defFd := c.defFd, instFd := c.instFd)
      ensures ok ==> forall g: int :: g >= 0 ==> RefCount(devlist, g) == RefCount(old(devlist), g) + Holds(c, g)
      ensures ok <==> SunwindowsGood(old(devlist), page, w)
      ensures ok ==> HoldsSunwindows(c, page, devlist)
      ensures !ok ==> c.instFd == -1
      ensures !ok ==> CloseIf(devlist, c.defFd) == old(devlist)
      ensures open == old(open) + Uses(devlist, c) && old(open) !! Uses(devlist, c)
      ensures Devs(devlist) == Devs(old(devlist)) + Uses(devlist, c)
    {
      hide DevsOk, RefCount, Closed, Opened, Listed, ListedUnder, Devs, TellsApart, Uses, LastUse, CloseIf;
      ok, c := true, c0;
      UsesOne(devlist, c);
      if page.isDefault && page.defName != "" {
        var fd := OpenCounted(page.defName, w.defOpens, w.defMemory);
        c := c.(defFd := fd);
        UsesOne(devlist, c);
        if fd < 0 { return false, c; }
      }
      ghost var between := devlist;
      if page.instName != "" {
        var fd := OpenCounted(page.instName, w.instOpens, w.instMemory);
        c := c.(instFd := fd);
        UsesOne(devlist, c);
        if fd < 0 { return false, c; }
        UsesTwo(between, devlist, c);
      }
    }

    /** SunwindowsOpen, seen through counts: one more use, which a close would undo. */
    method OpenCounted(name: string, opens: bool, memory: bool) returns (fd: int)
      requires DevsOk(devlist) && Fresh()
      modifies this`devlist, this`open
      ensures DevsOk(devlist) && Fresh() && fd >= -1
      ensures fd < 0 ==> devlist == old(devlist) && open == old(open)
      ensures fd >= 0 ==> Closed(devlist, fd) == old(devlist)
      ensures fd >= 0 ==> forall g: int :: g >= 0 ==> RefCount(devlist, g) == RefCount(old(devlist), g) + if g == fd then 1 else 0
      ensures fd >= 0 ==> open == old(open) + LastUse(devlist, fd) && old(open) !! LastUse(devlist, fd)
      ensures fd >= 0 ==> Devs(devlist) == Devs(old(devlist)) + LastUse(devlist, fd)
      ensures fd >= 0 <==> Opens(old(devlist), name, opens, memory)
      ensures fd >= 0 ==> forall n :: Listed(devlist, n) <==> Listed(old(devlist), n) || n == name
      ensures fd >= 0 ==> ListedUnder(devlist, name, fd)
      ensures fd >= 0 ==> forall n, g :: ListedUnder(old(devlist), n, g) ==> ListedUnder(devlist, n, g)
    {
      hide RefCount, Closed, Opened, Listed, ListedUnder, Devs;
      NotListed(devlist, open, next(open));
      OpenedFacts(devlist, name, next(open));
      OpenedDevs(devlist, name, next(open));
      OpenedUnder(devlist, name, next(open));
      fd := SunwindowsOpen(name, opens, memory);
    }

    /** dga_cm_grab: fd is the framebuffer if the caller provides one. */
    method Grab(fd: int, token: nat, page: Page, w: World) returns (ok: bool)
      requires Valid() && (fd == -1 || fd in open)
      modifies this
      ensures Valid()
      ensures forall t: nat :: GrabCount(grabbed, t) == GrabCount(old(grabbed), t) + if ok && t == token then 1 else 0
      ensures ok <==> Works(old(grabbed), old(devlist), fd, token, page, w)
      ensures !ok ==> grabbed == old(grabbed) && devlist == old(devlist) && open == old(open)
      ensures ok && FindToken(old(grabbed), token) < |old(grabbed)| ==> devlist == old(devlist) && open == old(open)
      ensures ok && FindToken(old(grabbed), token) == |old(grabbed)| ==>
        HasNew(old(grabbed), old(devlist), old(open), fd, token, page)
    {
      hide DevsOk, CmapsOk, Balanced, Kept, DeviceGood, SunwindowsGood, GrabCount, Devs, TellsApart;
      var i := 0;
      while i < |grabbed|
        invariant i <= |grabbed| && forall j :: 0 <= j < i ==> grabbed[j].token != token
      {
        if grabbed[i].token == token {
          assert FindToken(grabbed, token) == i;
          Regrabbed(grabbed, i, devlist);
          grabbed := grabbed[i := grabbed[i].(grabCount := grabbed[i].grabCount + 1)];
          return true;
        }
        i := i + 1;
      }
      assert FindToken(grabbed, token) == |grabbed|;
      if !w.memory { return false; }
      ghost var before := grabbed;
      ok := GrabNew(fd, token, page, w);
      if ok { NewIsCounted(before, grabbed, token); }
    }

    /** A new record of this token stands in front of the old list. It holds the caller's descriptor or a
        new one, its lock and its devices; giving it back closes exactly what has been opened since. */
    ghost predicate HasNew(cs: seq<Cmap>, ds: seq<Dev>, was: set<int>, fd: int, token: nat, page: Page)
      reads this
    {
      && |grabbed| > 0 && grabbed[1..] == cs && grabbed[0].token == token && grabbed[0].grabCount == 1
      && was <= open && Kept(open, devlist, grabbed[0], fd == -1, page.lockType) == was
      && Gives(grabbed[0], fd == -1, page.lockType) !! Devs(devlist)
      && HoldsDevice(grabbed[0], fd, page, was) && grabbed[0].devFd in open
      && HoldsSunwindows(grabbed[0], page, devlist)
      && Devs(devlist) == Devs(ds) + Uses(devlist, grabbed[0]) && Uses(devlist, grabbed[0]) !! was
    }

    method GrabNew(fd: int, token: nat, page: Page, w: World) returns (ok: bool)
      requires Valid() && (fd == -1 || fd in open) && forall j :: 0 <= j < |grabbed| ==> grabbed[j].token != token
      modifies this
      ensures Valid()
      ensures ok <==> DeviceGood(fd, page, w) && SunwindowsGood(old(devlist), page, w)
      ensures ok ==> HasNew(old(grabbed), old(devlist), old(open), fd, token, page)
      ensures !ok ==> grabbed == old(grabbed) && devlist == old(devlist) && open == old(open)
    {
      hide DevsOk, CmapsOk, Balanced, RefCount, Closed, DeviceGood, SunwindowsGood, Devs, TellsApart;
      ghost var before, devsBefore := grabbed, devlist;
      var c := Cmap(nextPtr, 0, 1, -1, -1, -1, -1);
      grabbed, nextPtr := [c] + grabbed, nextPtr + 1;
      var cflag, cleanType;
      ok, c, cflag, cleanType := Acquire(c, fd, page, w);
      if ok {
        c := c.(token := token);
        GrabbedNew(before, c, devsBefore, devlist);
        grabbed := grabbed[0 := c];
        assert grabbed == [c] + before;
      } else {
        FirstIsDropped(grabbed[0], before);
        hide CloseIf, LastUse, OwnLock, Kept, Gives;
        Cleanup(c, cflag, cleanType);
      }
    }

    /** Everything a grab acquires. A failure leaves just what cleanup gives back. */
    method Acquire(c0: Cmap, fd: int, page: Page, w: World) returns (ok: bool, c: Cmap, cflag: bool, cleanType: int)
      requires DevsOk(devlist) && Fresh() && (fd == -1 || fd in open)
      requires c0.devFd == c0.lockFd == c0.defFd == c0.instFd == -1
      modifies this`devlist, this`open
      ensures DevsOk(devlist) && Fresh() && c.ptr == c0.ptr && c.grabCount == c0.grabCount
      ensures ok ==> forall g: int :: g >= 0 ==> RefCount(devlist, g) == RefCount(old(devlist), g) + Holds(c, g)
      ensures !ok ==> CloseIf(CloseIf(devlist, c.defFd), c.instFd) == old(devlist)
      ensures Kept(open, devlist, c, cflag, cleanType) == old(open) && old(open) <= open
      ensures Gives(c, cflag, cleanType) !! Devs(devlist)
      ensures ok <==> DeviceGood(fd, page, w) && SunwindowsGood(old(devlist), page, w)
      ensures ok ==> cflag == (fd == -1) && cleanType == page.lockType
      ensures ok ==> HoldsDevice(c, fd, page, old(open)) && c.devFd in open && HoldsSunwindows(c, page, devlist)
      ensures ok ==> Devs(devlist) == Devs(old(devlist)) + Uses(devlist, c) && Uses(devlist, c) !! old(open)
    {
      hide DevsOk, RefCount, Closed, DeviceGood, SunwindowsGood, HoldsSunwindows, Devs, TellsApart;
      ok, c, cflag, cleanType := AcquireDevice(c0, fd, page, w);
      if ok {
        var d := c;
        ok, c := AcquireSunwindows(d, page, w);
        assert OwnLock(c, cleanType) == OwnLock(d, cleanType);
      }
    }

    /** dga_cm_ungrab of the i-th listed colormap, whose page has this lock type. */
    method Ungrab(i: nat, cflag: bool, lockType: int)
      requires Valid() && i < |grabbed| && (grabbed[i].grabCount == 1 ==> Gives(grabbed[i], cflag, lockType) !! Devs(devlist))
      modifies this
      ensures Valid()
      ensures forall t: nat :: GrabCount(grabbed, t) == GrabCount(old(grabbed), t) - if t == old(grabbed[i].token) then 1 else 0
      ensures if old(grabbed[i].grabCount) > 1 then open == old(open) && devlist == old(devlist)
              else open == Kept(old(open), old(devlist), old(grabbed[i]), cflag, lockType)
                   && grabbed == old(grabbed[..i] + grabbed[i + 1..])
    {
      var c := grabbed[i];
      ghost var before, devsBefore := grabbed, devlist;
      UngrabCounts(before, i);
      if c.grabCount - 1 > 0 {
        grabbed := grabbed[i := c.(grabCount := c.grabCount - 1)];
        return;
      }
      PtrIs(grabbed, i);
      forall g: int | g >= 0 ensures RefCount(devlist, g) >= Holds(c, g) { HandlesWithout(grabbed, i, g); }
      ReleaseCounts(devlist, c);
      WithoutIsOk(grabbed, i);
      Cleanup(c, cflag, lockType);
      forall g: int | g >= 0 ensures RefCount(devlist, g) == Handles(grabbed, g) { HandlesWithout(before, i, g); }
    }
  }

  lemma PtrIs(cs: seq<Cmap>, i: nat)
    requires CmapsOk(cs) && i < |cs|
    ensures Without(cs, cs[i].ptr) == cs[..i] + cs[i + 1..]
  {
  }

  lemma WithoutIsOk(cs: seq<Cmap>, i: nat)
    requires CmapsOk(cs) && i < |cs|
    ensures CmapsOk(cs[..i] + cs[i + 1..])
  {
  }

  lemma UngrabCounts(cs: seq<Cmap>, i: nat)
    requires CmapsOk(cs) && i < |cs|
    ensures var lower, gone := cs[i := cs[i].(grabCount := cs[i].grabCount - 1)], cs[..i] + cs[i + 1..];
      && (forall t: nat :: GrabCount(lower, t) == GrabCount(cs, t) - if t == cs[i].token then 1 else 0)
      && (cs[i].grabCount == 1 ==>
            forall t: nat :: GrabCount(gone, t) == GrabCount(cs, t) - if t == cs[i].token then 1 else 0)
      && (forall fd: int :: Handles(lower, fd) == Handles(cs, fd))
  {
    var lower, gone := cs[i := cs[i].(grabCount := cs[i].grabCount - 1)], cs[..i] + cs[i + 1..];
    assert cs[i].grabCount > 0;
    forall fd: int ensures Handles(lower, fd) == Handles(cs, fd) {
      HandlesRecounted(cs, i, cs[i].grabCount - 1, fd);
    }
    forall t: nat ensures GrabCount(lower, t) == GrabCount(cs, t) - if t == cs[i].token then 1 else 0 {
      GrabCountAt(cs, t);
      GrabCountAt(lower, t);
      SameTokens(cs, lower, t);
      TokenAt(cs, i, t);
    }
    if cs[i].grabCount == 1 {
      forall t: nat ensures GrabCount(gone, t) == GrabCount(cs, t) - if t == cs[i].token then 1 else 0 {
        CountWithout(cs, i, t);
      }
    }
  }

  lemma TokenAt(cs: seq<Cmap>, i: nat, t: nat)
    requires CmapsOk(cs) && i < |cs|
    ensures t == cs[i].token ==> FindToken(cs, t) == i
  {
  }

  lemma {:induction false} NotCounted(cs: seq<Cmap>, t: nat)
    requires forall j :: 0 <= j < |cs| ==> cs[j].token != t
    ensures GrabCount(cs, t) == 0
  {
    if cs != [] { NotCounted(cs[1..], t); }
  }

  lemma {:induction false} CountWithout(cs: seq<Cmap>, i: nat, t: nat)
    requires CmapsOk(cs) && i < |cs|
    ensures GrabCount(cs[..i] + cs[i + 1..], t) == if t == cs[i].token then 0 else GrabCount(cs, t)
    ensures t == cs[i].token ==> GrabCount(cs, t) == cs[i].grabCount
  {
    var gone := cs[..i] + cs[i + 1..];
    if i == 0 {
      assert gone == cs[1..];
      if t == cs[0].token { NotCounted(gone, t); }
    } else {
      assert gone[0] == cs[0] && gone[1..] == cs[1..][..i - 1] + cs[1..][i..];
      CountWithout(cs[1..], i - 1, t);
    }
  }

  /** Closing what c holds lowers every count by the handles c holds. */
  lemma ReleaseCounts(ds: seq<Dev>, c: Cmap)
    requires DevsOk(ds) && forall g: int :: g >= 0 ==> RefCount(ds, g) >= Holds(c, g)
    ensures forall g: int :: g >= 0 ==>
      RefCount(CloseIf(CloseIf(ds, c.defFd), c.instFd), g) == RefCount(ds, g) - Holds(c, g)
  {
    var es := CloseIf(ds, c.defFd);
    RefCountAt(ds, c.defFd);
    ClosedIsOk(ds, c.defFd);
    forall g: int | g >= 0 ensures RefCount(es, g) == RefCount(ds, g) - if c.defFd == g then 1 else 0 {
      if c.defFd >= 0 { ClosedCounts(ds, c.defFd, g); }
    }
    RefCountAt(es, c.instFd);
    forall g: int | g >= 0 ensures RefCount(CloseIf(es, c.instFd), g) == RefCount(es, g) - if c.instFd == g then 1 else 0 {
      if c.instFd >= 0 { ClosedCounts(es, c.instFd, g); }
    }
  }

  /** What stays open once cleanup has given back what c holds. */
  function Kept(open: set<int>, ds: seq<Dev>, c: Cmap, cflag: bool, lockType: int): set<int> {
    open - Uses(ds, c) - Gives(c, cflag, lockType)
  }

  lemma FirstIsDropped(c: Cmap, cs: seq<Cmap>)
    ensures Without([c] + cs, c.ptr) == cs
  {
    assert ([c] + cs)[..0] + ([c] + cs)[1..] == cs;
  }

  lemma NewIsCounted(cs: seq<Cmap>, r: seq<Cmap>, token: nat)
    requires r != [] && r[1..] == cs && r[0].token == token && r[0].grabCount == 1 && FindToken(cs, token) == |cs|
    ensures forall t: nat :: GrabCount(r, t) == GrabCount(cs, t) + if t == token then 1 else 0
  {
    GrabCountAt(cs, token);
  }

  lemma Regrabbed(cs: seq<Cmap>, i: nat, ds: seq<Dev>)
    requires CmapsOk(cs) && Balanced(cs, ds) && i < |cs|
    ensures var r := cs[i := cs[i].(grabCount := cs[i].grabCount + 1)];
      && CmapsOk(r) && Balanced(r, ds)
      && forall t: nat :: GrabCount(r, t) == GrabCount(cs, t) + if t == cs[i].token then 1 else 0
  {
    var r := cs[i := cs[i].(grabCount := cs[i].grabCount + 1)];
    forall fd: int | fd >= 0 ensures Handles(r, fd) == Handles(cs, fd) {
      HandlesRecounted(cs, i, cs[i].grabCount + 1, fd);
    }
    forall t: nat ensures GrabCount(r, t) == GrabCount(cs, t) + if t == cs[i].token then 1 else 0 {
      GrabCountAt(cs, t);
      GrabCountAt(r, t);
      SameTokens(cs, r, t);
      if FindToken(cs, t) < |cs| && t == cs[i].token { assert FindToken(cs, t) == i; }
    }
  }

  lemma SameTokens(cs: seq<Cmap>, r: seq<Cmap>, t: nat)
    requires |cs| == |r| && forall j :: 0 <= j < |cs| ==> cs[j].token == r[j].token
    ensures FindToken(cs, t) == FindToken(r, t)
  {
  }

  lemma GrabbedNew(cs: seq<Cmap>, c: Cmap, before: seq<Dev>, after: seq<Dev>)
    requires CmapsOk(cs) && Balanced(cs, before) && c.grabCount > 0
    requires forall j :: 0 <= j < |cs| ==> cs[j].token != c.token && cs[j].ptr != c.ptr
    requires forall g: int :: g >= 0 ==> RefCount(after, g) == RefCount(before, g) + Holds(c, g)
    ensures CmapsOk([c] + cs) && Balanced([c] + cs, after)
  {
    assert ([c] + cs)[1..] == cs;
  }

  function CloseIf(ds: seq<Dev>, fd: int): seq<Dev> {
    if fd >= 0 then Closed(ds, fd) else ds
  }

  /** The descriptor, if dropping one use of it closes it. */
  function LastUse(ds: seq<Dev>, fd: int): set<int> {
    if fd >= 0 && RefCount(ds, fd) == 1 then {fd} else {}
  }

  /** The descriptors that giving back the device uses of c closes. */
  function Uses(ds: seq<Dev>, c: Cmap): set<int> {
    LastUse(ds, c.defFd) + LastUse(CloseIf(ds, c.defFd), c.instFd)
  }

  lemma UsesOne(ds: seq<Dev>, c: Cmap)
    ensures c.instFd == -1 ==> Uses(ds, c) == LastUse(ds, c.defFd)
    ensures LastUse(ds, -1) == {}
    ensures CloseIf(ds, c.defFd) == if c.defFd >= 0 then Closed(ds, c.defFd) else ds
  {
  }

  /** They are those that taking the two uses one after the other opened. */
  lemma UsesTwo(between: seq<Dev>, after: seq<Dev>, c: Cmap)
    requires DevsOk(after) && c.defFd >= -1 && c.instFd >= 0
    requires forall g: int :: g >= 0 ==> RefCount(after, g) == RefCount(between, g) + if g == c.instFd then 1 else 0
    requires c.defFd >= 0 ==> RefCount(between, c.defFd) > 0
    ensures Uses(after, c) == LastUse(between, c.defFd) + LastUse(after, c.instFd)
  {
    if c.defFd >= 0 {
      RefCountAt(after, c.defFd);
      ClosedCounts(after, c.defFd, c.instFd);
    }
  }

  function OwnLock(c: Cmap, lockType: int): set<int> {
    if lockType == CM_LOCKDEV && c.lockFd != -1 && c.lockFd != c.devFd then {c.lockFd} else {}
  }

  function FindPtr(cs: seq<Cmap>, ptr: nat): (i: nat)
    ensures i <= |cs| && (i < |cs| ==> cs[i].ptr == ptr) && forall j :: 0 <= j < i ==> cs[j].ptr != ptr
  {
    if cs == [] || cs[0].ptr == ptr then 0 else 1 + FindPtr(cs[1..], ptr)
  }

  function Without(cs: seq<Cmap>, ptr: nat): seq<Cmap> {
    var i := FindPtr(cs, ptr);
    if i < |cs| then cs[..i] + cs[i + 1..] else cs
  }

  // ---------- Runs ----------

  /** What a client does: grabs and ungrabs, and opening and closing descriptors of its own. */
  datatype Op = GrabOp(fd: int, token: nat, page: Page, world: World)
              | UngrabOp(token: nat, cflag: bool, lockType: int)
              | OpenOp(works: bool) | CloseOp(fd: int)

  datatype State = State(grabbed: seq<Cmap>, devlist: seq<Dev>, open: set<int>)

  /** A grab can be asked for with no descriptor or an open one. Nobody but the library closes the
      descriptors of its devices: neither directly nor by an ungrab that hands in a number of theirs. */
  predicate Callable(s: State, op: Op) {
    match op
    case GrabOp(fd, _, _, _) => fd == -1 || fd in s.open
    case UngrabOp(t, cflag, lockType) =>
      var k := FindToken(s.grabbed, t);
      k < |s.grabbed| && (s.grabbed[k].grabCount == 1 ==> Gives(s.grabbed[k], cflag, lockType) !! Devs(s.devlist))
    case OpenOp(_) => true
    case CloseOp(fd) => fd !in Devs(s.devlist)
  }

  /** What an operation does to the count of a token. */
  function Effect(s: State, op: Op, token: nat): int {
    match op
    case GrabOp(fd, t, page, w) =>
      if t == token && Callable(s, op) && Works(s.grabbed, s.devlist, fd, t, page, w) then 1 else 0
    case UngrabOp(t, _, _) => if t == token && Callable(s, op) then -1 else 0
    case _ => 0
  }

  /** One operation of a run. One that fails, or cannot be asked for, leaves everything as it was. */
  ghost predicate Steps(s: State, op: Op, t: State) {
    && Balanced(t.grabbed, t.devlist)
    && (forall token: nat :: GrabCount(t.grabbed, token) == GrabCount(s.grabbed, token) + Effect(s, op, token))
    && (op.GrabOp? && Effect(s, op, op.token) == 0 ==> t == s)
    && (op.UngrabOp? && Effect(s, op, op.token) == 0 ==> t == s)
    && (op.OpenOp? || op.CloseOp? ==> t.grabbed == s.grabbed && t.devlist == s.devlist)
    && (op.OpenOp? ==> if op.works then exists fd :: fd !in s.open && t.open == s.open + {fd} else t == s)
    && (op.CloseOp? ==> t.open == if Callable(s, op) then s.open - {op.fd} else s.open)
  }

  /** A token's successful grabs, less its ungrabs. */
  ghost function Net(states: seq<State>, ops: seq<Op>, token: nat): int
    requires |states| >= |ops|
    decreases |ops|
  {
    if ops == [] then 0
    else
      var n := |ops| - 1;
      Net(states[..n], ops[..n], token) + Effect(states[n], ops[n], token)
  }

  lemma NetStep(states: seq<State>, more: seq<State>, ops: seq<Op>, n: nat, token: nat)
    requires n < |ops| && |states| == n + 1
    ensures Net(states + more, ops[..n + 1], token) == Net(states, ops[..n], token) + Effect(states[n], ops[n], token)
  {
    assert ops[..n + 1][..n] == ops[..n] && (states + more)[..n] == states[..n];
    NetIgnores(states[..n], states[n..], ops[..n], token);
    assert states[..n] + states[n..] == states;
  }

  lemma {:induction false} NetIgnores(states: seq<State>, more: seq<State>, ops: seq<Op>, token: nat)
    requires |states| >= |ops|
    ensures Net(states + more, ops, token) == Net(states, ops, token)
    decreases |ops|
  {
    if ops != [] { assert (states + more)[..|ops| - 1] == states[..|ops| - 1]; }
  }

  /** Over any run, every operation does just what its state says it does; each token's count is its
      grabs that worked less its ungrabs, and every device's count is the number of handles the listed
      colormaps hold on it. */
  method Session(lib: Libdga, ops: seq<Op>) returns (ghost states: seq<State>)
    requires lib.Valid() && lib.grabbed == []
    modifies lib
    ensures lib.Valid() && Balanced(lib.grabbed, lib.devlist)
    ensures |states| == |ops| + 1 && states[0] == old(State(lib.grabbed, lib.devlist, lib.open))
    ensures states[|ops|] == State(lib.grabbed, lib.devlist, lib.open)
    ensures forall i :: 0 <= i < |ops| ==> Steps(states[i], ops[i], states[i + 1])
    ensures forall t: nat :: GrabCount(lib.grabbed, t) == Net(states, ops, t)
  {
    hide CmapsOk, DevsOk, Balanced, Steps, Effect;
    states := [State(lib.grabbed, lib.devlist, lib.open)];
    for i := 0 to |ops|
      invariant lib.Valid() && |states| == i + 1 && states[0] == old(State(lib.grabbed, lib.devlist, lib.open))
      invariant states[i] == State(lib.grabbed, lib.devlist, lib.open)
      invariant forall j :: 0 <= j < i ==> Steps(states[j], ops[j], states[j + 1])
      invariant forall t: nat :: GrabCount(lib.grabbed, t) == Net(states, ops[..i], t)
    {
      ghost var s := State(lib.grabbed, lib.devlist, lib.open);
      Perform(lib, ops[i]);
      ghost var t := State(lib.grabbed, lib.devlist, lib.open);
      forall k: nat ensures GrabCount(lib.grabbed, k) == Net(states + [t], ops[..i + 1], k) {
        NetStep(states, [t], ops, i, k);
        StepsCounts(s, ops[i], t, k);
      }
      states := states + [t];
    }
    assert ops[..|ops|] == ops;
  }

  lemma StepsCounts(s: State, op: Op, t: State, token: nat)
    requires Steps(s, op, t)
    ensures GrabCount(t.grabbed, token) == GrabCount(s.grabbed, token) + Effect(s, op, token)
  {
  }

  method Perform(lib: Libdga, op: Op)
    requires lib.Valid()
    modifies lib
    ensures lib.Valid()
    ensures Steps(old(State(lib.grabbed, lib.devlist, lib.open)), op, State(lib.grabbed, lib.devlist, lib.open))
  {
    var s := State(lib.grabbed, lib.devlist, lib.open);
    match op
    case GrabOp(fd, token, page, world) =>
      if Callable(s, op) {
        var _ := lib.Grab(fd, token, page, world);
      }
    case UngrabOp(token, cflag, lockType) =>
      if Callable(s, op) { lib.Ungrab(FindToken(lib.grabbed, token), cflag, lockType); }
    case OpenOp(works) =>
      var fd := lib.OpenFile(works);
    case CloseOp(fd) =>
      if Callable(s, op) { lib.CloseFile(fd); }
  }

  /** A new grab followed by its ungrab leaves nothing behind, but for the framebuffer: cflag says whether
      the ungrab closes it, whoever has opened it. */
  method GrabAndUngrab(lib: Libdga, fd: int, token: nat, page: Page, w: World, cflag: bool)
    returns (ok: bool, ghost devFd: int)
    requires lib.Valid() && (fd == -1 || fd in lib.open) && FindToken(lib.grabbed, token) == |lib.grabbed|
    requires cflag ==> fd !in Devs(lib.devlist)
    modifies lib
    ensures lib.Valid() && lib.grabbed == old(lib.grabbed)
    ensures ok <==> Works(old(lib.grabbed), old(lib.devlist), fd, token, page, w)
    ensures forall g: int :: g >= 0 ==> RefCount(lib.devlist, g) == RefCount(old(lib.devlist), g)
    ensures ok ==> if fd == -1 then devFd !in old(lib.open) else devFd == fd
    ensures lib.open == if !ok then old(lib.open)
                        else if cflag then old(lib.open) - {devFd}
                        else old(lib.open) + {devFd}
  {
    hide CmapsOk, DevsOk, Works, GrabCount, Uses, Devs, TellsApart;
    ghost var was, ds := lib.open, lib.devlist;
    devFd := fd;
    ok := lib.Grab(fd, token, page, w);
    if ok {
      NewGivesBack(lib, ds, was, fd, token, page, cflag);
      devFd := lib.grabbed[0].devFd;
      lib.Ungrab(0, cflag, page.lockType);
    }
  }

  /** What is open once a new record has been given back. */
  lemma NewGivesBack(lib: Libdga, ds: seq<Dev>, was: set<int>, fd: int, token: nat, page: Page, cflag: bool)
    requires lib.grabbed != [] && lib.HasNew(lib.grabbed[1..], ds, was, fd, token, page)
    requires (fd == -1 || fd in was) && (cflag ==> fd !in Devs(ds))
    ensures var c := lib.grabbed[0];
      && c.grabCount == 1 && Gives(c, cflag, page.lockType) !! Devs(lib.devlist)
      && (if fd == -1 then c.devFd !in was else c.devFd == fd)
      && Kept(lib.open, lib.devlist, c, cflag, page.lockType) == if cflag then was - {c.devFd} else was + {c.devFd}
  {
    hide Uses, Devs;
  }
}
