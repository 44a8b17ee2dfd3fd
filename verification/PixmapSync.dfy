/** How a libdga client keeps a locked pixmap in step with the server; its counters are 32 bits wide. */
module PixmapSync {
  import opened Machine

  /** The shared page, with counters that never wrap; what the client reads is Word of them. */
  datatype Page = Page(devinfo: nat, cache: nat, cached: bool, obsolete: bool, chng: nat)

  const BLANK := Page(0, 0, false, false, 0)

  datatype Move = MoveDevinfo | MoveCache(cached: bool) | MoveObsolete

  function Step(p: Page, m: Move): Page {
    match m
    case MoveDevinfo => p.(devinfo := p.devinfo + 1, chng := p.chng + 1)
    case MoveCache(c) => p.(cache := p.cache + 1, cached := c, chng := p.chng + 1)
    case MoveObsolete => p.(obsolete := true, chng := p.chng + 1)
  }

  function Run(p: Page, ms: seq<Move>): Page
    decreases |ms|
  {
    if ms == [] then p else Step(Run(p, ms[..|ms| - 1]), ms[|ms| - 1])
  }

  /** q is p after q.chng - p.chng changes. */
  ghost predicate Later(p: Page, q: Page) {
    && p.devinfo <= q.devinfo && p.cache <= q.cache && (p.obsolete ==> q.obsolete)
    && (q.devinfo - p.devinfo) + (q.cache - p.cache) + (if p.obsolete == q.obsolete then 0 else 1) <= q.chng - p.chng
    && (p.cache == q.cache ==> p.cached == q.cached)
  }

  lemma {:induction false} RunIsLater(p: Page, q: Page, ms: seq<Move>)
    requires Later(p, q)
    ensures Later(p, Run(q, ms)) && Run(q, ms).chng == q.chng + |ms|
    decreases |ms|
  {
    if ms != [] { RunIsLater(p, q, ms[..|ms| - 1]); }
  }

  lemma WordEqual(m: nat, n: nat)
    requires m <= n
    ensures Word(m) == Word(n) <==> (n - m) % WRAP == 0
  {
  }

  /** Two counts less than a full turn apart look equal exactly when they are. */
  lemma WordTellsApart(m: nat, n: nat)
    requires m <= n < m + WRAP
    ensures Word(m) == Word(n) <==> m == n
  {
    WordEqual(m, n);
  }

  datatype Change = ChZombie | ChSite | ChClip | ChDevinfo | ChCache

  datatype SiteReason = SiteUnknown | SiteZombie | SiteCache

  class DgaPixmap {
    var page: Page               // the shared page
    const siteNotify: bool       // a site notification function is registered
    var cDevinfo: nat
    var cCache: nat
    var cCached: bool
    var cChng: nat
    var changeMask: set<Change>
    var siteReason: SiteReason
    var lockCount: nat
    var modif: set<Change>
    ghost var delivered: set<Change>
    ghost var seen: Page         // the page when the last update ended
    ghost var inTime: bool       // no 2^32 changes ever passed between two updates

    constructor (page: Page, siteNotify: bool)
      requires Later(BLANK, page)
      ensures Valid() && this.page == page && seen == BLANK && lockCount == 0 && inTime
    {
      this.page, this.siteNotify := page, siteNotify;
      cDevinfo, cCache, cCached, cChng := 0, 0, false, 0;
      changeMask, siteReason, lockCount, modif, delivered, seen, inTime := {}, SiteUnknown, 0, {}, {}, BLANK, true;
    }

    /** The client holds what the page said at the last update. */
    ghost predicate Valid()
      reads this
    {
      && Later(seen, page)
      && cDevinfo == Word(seen.devinfo) && cCache == Word(seen.cache) && cChng == Word(seen.chng)
      && (inTime ==> cCached == seen.cached)
    }

    method Notify()
      modifies this`changeMask, this`delivered
      ensures delivered == if siteNotify then {ChSite} * old(changeMask) else {}
      ensures changeMask == old(changeMask) - delivered
    {
      delivered := {};
      if siteNotify && ChSite in changeMask {
        delivered := {ChSite};
        changeMask := changeMask - {ChSite};
      }
    }

    /** Notes what differs from the page, and takes it over. */
    method Collect()
      modifies this`changeMask, this`siteReason, this`cDevinfo, this`cCache, this`cCached
      ensures cDevinfo == Word(page.devinfo) && cCache == Word(page.cache)
      ensures cCached == if old(cCache) != Word(page.cache) then page.cached else old(cCached)
      ensures ChDevinfo in changeMask <==> old(cDevinfo) != Word(page.devinfo)
      ensures ChCache in changeMask <==> old(cCache) != Word(page.cache)
      ensures ChSite in changeMask <==> page.obsolete || old(cCache) != Word(page.cache)
      ensures (ChZombie in changeMask <==> page.obsolete) && (ChClip in changeMask <==> page.obsolete)
      ensures siteReason == if ChCache in changeMask then SiteCache else if page.obsolete then SiteZombie else old(siteReason)
    {
      changeMask := {};
      if page.obsolete {
        changeMask := {ChZombie, ChSite, ChClip};
        siteReason := SiteZombie;
      }
      if cDevinfo != Word(page.devinfo) {
        changeMask := changeMask + {ChDevinfo};
        cDevinfo := Word(page.devinfo);
      }
      if cCache != Word(page.cache) {
        changeMask := changeMask + {ChCache, ChSite};
        siteReason := SiteCache;
        cCached := page.cached;
        cCache := Word(page.cache);
      }
    }

    /** dgai_pix_update, MT off. */
    method Update() returns (mask: set<Change>)
      requires Valid()
      modifies this`changeMask, this`siteReason, this`cDevinfo, this`cCache, this`cCached, this`cChng
      modifies this`delivered, this`seen, this`inTime
      ensures Valid() && seen == page && mask == changeMask
      ensures inTime == (old(inTime) && page.chng < old(seen.chng) + WRAP)
      ensures inTime ==> Told(mask, delivered, old(seen), page)
      ensures inTime ==>
        siteReason == if old(seen).cache != page.cache then SiteCache else if page.obsolete then SiteZombie else old(siteReason)
    {
      hide Word;
      inTime := inTime && page.chng < seen.chng + WRAP;
      if inTime {
        WordTellsApart(seen.devinfo, page.devinfo);
        WordTellsApart(seen.cache, page.cache);
      }
      Collect();
      Notify();
      cChng := Word(page.chng);
      seen := page;
      mask := changeMask;
    }

    /** DGA_DRAW_LOCK. The fast path is taken exactly when the number of changes since the last update
        is a multiple of 2^32. As long as it has always been less, that means no change at all, and after
        every outermost lock the client is in step and every change since the last one is told. */
    method DrawLock()
      requires Valid()
      modifies this
      ensures Valid() && page == old(page) && lockCount == old(lockCount) + 1
      ensures old(lockCount) > 0 ==> modif == old(modif) && seen == old(seen) && inTime == old(inTime)
      ensures old(lockCount) == 0 ==>
        if (page.chng - old(seen.chng)) % WRAP == 0 then modif == delivered == {} && seen == old(seen)
        else seen == page && (inTime ==> Told(modif, delivered, old(seen), page))
      ensures old(lockCount) == 0 && inTime ==>
        siteReason == if old(seen).cache != seen.cache then SiteCache
                      else if seen != old(seen) && page.obsolete then SiteZombie else old(siteReason)
      ensures old(lockCount) == 0 && old(inTime) && page.chng < old(seen.chng) + WRAP ==>
        && inTime && seen == page && cCached == page.cached
        && cDevinfo == Word(page.devinfo) && cCache == Word(page.cache) && cChng == Word(page.chng)
    {
      lockCount := lockCount + 1;
      if lockCount == 1 {
        WordEqual(seen.chng, page.chng);
        if cChng == Word(page.chng) {
          modif, delivered := {}, {};
        } else {
          modif := Update();
        }
      }
    }

    method DrawUnlock()
      requires Valid() && lockCount > 0
      modifies this`lockCount
      ensures Valid() && lockCount == old(lockCount) - 1
    {
      lockCount := lockCount - 1;
    }

    /** The server changes the page while nobody holds the lock. */
    method ServerChanges(ms: seq<Move>)
      requires Valid() && lockCount == 0
      modifies this`page
      ensures Valid() && page == Run(old(page), ms)
    {
      RunIsLater(seen, page, ms);
      page := Run(page, ms);
    }
  }

  /** Every change from page s to page p is in the mask or was delivered to the site function. */
  ghost predicate Told(mask: set<Change>, delivered: set<Change>, s: Page, p: Page) {
    && delivered <= {ChSite}
    && (s.devinfo != p.devinfo <==> ChDevinfo in mask)
    && (s.cache != p.cache <==> ChCache in mask)
    && (p.obsolete <==> ChZombie in mask) && (p.obsolete <==> ChClip in mask)
    && (p.obsolete || s.cache != p.cache <==> ChSite in mask + delivered)
  }

  datatype Event = Changes(ms: seq<Move>) | LockAndUnlock

  /** How many changes have piled up after these events, of which some had before. */
  function Backlog(events: seq<Event>, before: nat): nat {
    if events == [] then before
    else match events[|events| - 1]
      case LockAndUnlock => 0
      case Changes(ms) => |ms| + Backlog(events[..|events| - 1], before)
  }

  /** Never do 2^32 changes pile up between two locks. */
  predicate InTime(events: seq<Event>, before: nat) {
    Backlog(events, before) < WRAP && (events != [] ==> InTime(events[..|events| - 1], before))
  }

  function Pages(p: Page, events: seq<Event>): Page {
    if events == [] then p
    else
      var q := Pages(p, events[..|events| - 1]);
      match events[|events| - 1]
      case Changes(ms) => Run(q, ms)
      case LockAndUnlock => q
  }

  /** What the client has looked at after these events: the page at the last lock. */
  function LastLooked(s: Page, p: Page, events: seq<Event>): Page {
    if events == [] then s
    else if events[|events| - 1].LockAndUnlock? then Pages(p, events)
    else LastLooked(s, p, events[..|events| - 1])
  }

  /** One lock of a run: the page the client had seen, the page it finds, and what it is told. */
  datatype Locked = Locked(seen: Page, page: Page, mask: set<Change>, delivered: set<Change>)

  /** A lock tells every change since the client last looked and no other, and nothing if there is none. */
  ghost predicate Tells(k: Locked) {
    if k.page.chng == k.seen.chng then k.page == k.seen && k.mask == {} && k.delivered == {}
    else Told(k.mask, k.delivered, k.seen, k.page)
  }

  /** In event number i of the run a lock has told, or nothing has been told. */
  ghost predicate Logged(k: Option<Locked>, s: Page, p: Page, events: seq<Event>, i: nat)
    requires i < |events|
  {
    match events[i]
    case LockAndUnlock =>
      k.Some? && k.value.seen == LastLooked(s, p, events[..i]) && k.value.page == Pages(p, events[..i]) && Tells(k.value)
    case Changes(_) => k.None?
  }

  /** The client holds what this page says. */
  ghost predicate Holds(d: DgaPixmap, p: Page)
    reads d
  {
    d.cCached == p.cached && d.cDevinfo == Word(p.devinfo) && d.cCache == Word(p.cache)
  }

  /** Over any run of changes and locks that is in time, beginning with a fresh pixmap or later: the page
      is the one the changes alone make, every lock tells just what has changed since the one before, and
      the client holds what it said at the last. */
  method Session(d: DgaPixmap, events: seq<Event>) returns (ghost log: seq<Option<Locked>>)
    requires d.Valid() && d.lockCount == 0 && d.inTime && InTime(events, d.page.chng - d.seen.chng)
    modifies d
    ensures d.Valid() && d.lockCount == 0 && d.inTime
    ensures d.page == Pages(old(d.page), events) && d.seen == LastLooked(old(d.seen), old(d.page), events)
    ensures |log| == |events| && forall i :: 0 <= i < |events| ==> Logged(log[i], old(d.seen), old(d.page), events, i)
    ensures Holds(d, d.seen)
  {
    hide Later, Run, Tells, Told, InTime, Word;
    ghost var s, p := d.seen, d.page;
    log := [];
    StartOfRun(s, p);
    InTimePrefix(events, p.chng - s.chng, 0);
    for i := 0 to |events|
      invariant d.Valid() && d.lockCount == 0 && d.inTime && |log| == i
      invariant d.page == Pages(p, events[..i]) && d.seen == LastLooked(s, p, events[..i])
      invariant d.page.chng - d.seen.chng == Backlog(events[..i], p.chng - s.chng) < WRAP
      invariant forall j :: 0 <= j < i ==> Logged(log[j], s, p, events, j)
    {
      InTimePrefix(events, p.chng - s.chng, i + 1);
      assert events[..i + 1][..i] == events[..i];
      match events[i]
      case Changes(ms) =>
        RunCounts(d.page, ms);
        d.ServerChanges(ms);
        log := log + [None];
      case LockAndUnlock =>
        ghost var k := LockOnce(d);
        log := log + [Some(k)];
    }
    assert events[..|events|] == events;
  }

  lemma StartOfRun(s: Page, p: Page)
    requires Later(s, p)
    ensures p.chng >= s.chng
  {
  }

  /** A lock and unlock with fewer than 2^32 changes to tell. */
  method LockOnce(d: DgaPixmap) returns (ghost k: Locked)
    requires d.Valid() && d.lockCount == 0 && d.inTime && 0 <= d.page.chng - d.seen.chng < WRAP
    modifies d
    ensures d.Valid() && d.lockCount == 0 && d.inTime && d.page == d.seen == old(d.page)
    ensures k.seen == old(d.seen) && k.page == d.page && Tells(k)
  {
    ghost var seen := d.seen;
    d.DrawLock();
    k := Locked(seen, d.page, d.modif, d.delivered);
    d.DrawUnlock();
  }

  lemma RunCounts(p: Page, ms: seq<Move>)
    ensures Run(p, ms).chng == p.chng + |ms|
  {
    RunIsLater(p, p, ms);
  }

  lemma {:induction false} InTimePrefix(events: seq<Event>, before: nat, n: nat)
    requires InTime(events, before) && n <= |events|
    ensures InTime(events[..n], before) && Backlog(events[..n], before) < WRAP
  {
    if n < |events| {
      InTimePrefix(events[..|events| - 1], before, n);
      assert events[..|events| - 1][..n] == events[..n];
    } else {
      assert events[..n] == events;
    }
  }
}
