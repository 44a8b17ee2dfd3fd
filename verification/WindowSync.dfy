/** How a libdga client keeps a locked window in step with the server's shared page. */
module WindowSync {

  // ---------- The shared page and what the server does to it ----------

  /** The counters of the shared page. Every change bumps its own counter and the master count chng. */
  datatype Page = Page(clip: nat, curs: nat, rtn: nat, mbuf: nat, compos: nat, devinfo: nat,
                       ovlState: int, obsolete: bool, chng: nat)

  datatype Move = MoveClip | MoveCurs | MoveRtn | MoveDisplayBuffer | MoveComposition | MoveDevinfo
                | MoveOvlState(state: int) | MoveObsolete

  function Step(p: Page, m: Move): Page {
    var q := p.(chng := p.chng + 1);
    match m
    case MoveClip => q.(clip := p.clip + 1)
    case MoveCurs => q.(curs := p.curs + 1)
    case MoveRtn => q.(rtn := p.rtn + 1)
    case MoveDisplayBuffer => q.(mbuf := p.mbuf + 1)
    case MoveComposition => q.(mbuf := p.mbuf + 1, compos := p.compos + 1)
    case MoveDevinfo => q.(devinfo := p.devinfo + 1)
    case MoveOvlState(s) => q.(ovlState := s)
    case MoveObsolete => q.(obsolete := true)
  }

  function Run(p: Page, ms: seq<Move>): Page
    decreases |ms|
  {
    if ms == [] then p else Step(Run(p, ms[..|ms| - 1]), ms[|ms| - 1])
  }

  /** q is p after some changes: counters only grow, and an equal master count means no change at all. */
  ghost predicate Later(p: Page, q: Page) {
    && p.clip <= q.clip && p.curs <= q.curs && p.rtn <= q.rtn && p.mbuf <= q.mbuf
    && p.devinfo <= q.devinfo && p.chng <= q.chng && (p.obsolete ==> q.obsolete)
    && (p.chng == q.chng ==> p == q)
  }

  lemma {:induction false} RunIsLater(p: Page, ms: seq<Move>)
    ensures Later(p, Run(p, ms))
    ensures Run(p, ms).chng == p.chng + |ms|
    ensures MoveObsolete !in ms ==> Run(p, ms).obsolete == p.obsolete
    decreases |ms|
  {
    if ms != [] { RunIsLater(p, ms[..|ms| - 1]); }
  }

  /** What happens while a refresh has dropped the lock: server changes, and whether the retained
      window ends up mapped. */
  datatype Gap = Gap(moves: seq<Move>, mapped: bool)

  class Server {
    var page: Page
    var ovlShapeValid: bool
    var plan: seq<Gap>           // what the server will do in the coming gaps

    constructor (page: Page, plan: seq<Gap>)
      ensures this.page == page && this.plan == plan
    {
      this.page, this.plan, ovlShapeValid := page, plan, true;
    }

    /** Unlock and lock again: the server may do what it has planned for this gap. */
    method Relock() returns (mapped: bool, moved: bool)
      modifies this`page, this`plan
      ensures Evolves(old(page), old(plan), page, plan, moved)
      ensures moved <==> old(plan) != []
      ensures if moved then mapped == old(plan)[0].mapped && page == Run(old(page), old(plan)[0].moves) && plan == old(plan)[1..]
              else page == old(page) && plan == old(plan)
    {
      mapped, moved := false, plan != [];
      if moved {
        RunIsLater(page, plan[0].moves);
        page, mapped, plan := Run(page, plan[0].moves), plan[0].mapped, plan[1..];
      }
    }
  }

  /** The server plans to retire the window in none of the gaps. */
  ghost predicate NeverRetired(plan: seq<Gap>) {
    forall g :: g in plan ==> MoveObsolete !in g.moves
  }

  /** The server went from (p, before) to (q, after); moved tells whether it used up some of its plan. */
  ghost predicate Evolves(p: Page, before: seq<Gap>, q: Page, after: seq<Gap>, moved: bool) {
    && Later(p, q)
    && (if moved then |after| < |before| else q == p && after == before)
    && (NeverRetired(before) ==> NeverRetired(after) && q.obsolete == p.obsolete)
  }

  // ---------- The client ----------

  datatype Change = ChClip | ChCursor | ChBstore | ChZombie | ChMbufset | ChSite | ChDevinfo | ChOvlState

  datatype SiteReason = SiteUnknown | SiteInitial | SiteZombie | SiteMb

  const OVLSTATE_CONFLICT := 2
  const WIN_CHANGEABLE_ATTRS := {ChClip, ChCursor, ChBstore}

  /** The sequence counts reported to the client or refreshed since. */
  datatype LastSeqs = LastSeqs(mbuf: nat, clip: nat, curs: int, rtn: nat)

  // ---------- The synchronization loop as a function ----------

  /** What the loop works on: the page, what the server still plans, the counts refreshed so far, the
      overlay state taken over, whether the retained window is mapped, and whether the overlay state has
      been found to differ. */
  datatype Sync = Sync(page: Page, plan: seq<Gap>, last: LastSeqs, ovl: int, mapped: bool, ovlMoved: bool)

  /** The lock is dropped and taken again. */
  function Dropped(s: Sync): Sync {
    if s.plan == [] then s else s.(page := Run(s.page, s.plan[0].moves), plan := s.plan[1..])
  }

  function SyncedClip(s: Sync): Sync {
    if s.last.clip == s.page.clip then s
    else var t := Dropped(s); t.(last := t.last.(clip := t.page.clip))
  }

  function SyncedCurs(s: Sync): Sync {
    if s.last.curs == s.page.curs then s
    else var t := Dropped(s); t.(last := t.last.(curs := t.page.curs))
  }

  function SyncedRtn(s: Sync, grabbed: bool): Sync {
    if s.last.rtn == s.page.rtn && (grabbed ==> s.mapped) then s
    else
      var t := Dropped(s);
      t.(last := t.last.(rtn := t.page.rtn), mapped := if s.plan == [] then s.mapped else s.plan[0].mapped)
  }

  function SyncedAll(s: Sync, overlay: bool, grabbed: bool): Sync {
    var t := SyncedRtn(SyncedCurs(SyncedClip(s)), grabbed);
    if overlay then t.(ovl := t.page.ovlState, ovlMoved := t.ovlMoved || t.ovl != t.page.ovlState) else t
  }

  function Round(s: Sync, overlay: bool, grabbed: bool): Sync {
    SyncedAll(s.(last := s.last.(mbuf := s.page.mbuf)), overlay, grabbed)
  }

  predicate Again(s: Sync, overlay: bool) {
    || s.last.mbuf != s.page.mbuf || s.last.clip != s.page.clip || s.last.curs != s.page.curs
    || s.last.rtn != s.page.rtn || (overlay && s.ovl != s.page.ovlState)
  }

  /** How the loop ends: where it stood when it last tested whether the window is retired, and at the end. */
  datatype End = End(test: Sync, last: Sync)

  function LoopEnd(s: Sync, overlay: bool, grabbed: bool): End
    decreases |s.plan|
  {
    if s.page.obsolete then End(s, s)
    else
      var t := Round(s, overlay, grabbed);
      // a round after which another is needed has used up some of the plan
      if Again(t, overlay) && |t.plan| < |s.plan| then LoopEnd(t, overlay, grabbed) else End(s, t)
  }

  lemma LoopStep(s: Sync, overlay: bool, grabbed: bool)
    ensures var t := Round(s, overlay, grabbed);
      LoopEnd(s, overlay, grabbed) ==
        if s.page.obsolete then End(s, s)
        else if Again(t, overlay) && |t.plan| < |s.plan| then LoopEnd(t, overlay, grabbed)
        else End(s, t)
  {
  }

  /** The page after some gaps. */
  function AfterGaps(p: Page, gaps: seq<Gap>): Page
    decreases |gaps|
  {
    if gaps == [] then p else AfterGaps(Run(p, gaps[0].moves), gaps[1..])
  }

  ghost predicate Retires(gaps: seq<Gap>) {
    exists i :: 0 <= i < |gaps| && MoveObsolete in gaps[i].moves
  }

  /** t has been reached from s through the first gaps of its plan. */
  ghost predicate Through(s: Sync, t: Sync) {
    var n := |s.plan| - |t.plan|;
    n >= 0 && t.plan == s.plan[n..] && t.page == AfterGaps(s.page, s.plan[..n])
  }

  lemma {:induction false} AfterGapsConcat(p: Page, a: seq<Gap>, b: seq<Gap>)
    ensures AfterGaps(p, a + b) == AfterGaps(AfterGaps(p, a), b)
    decreases |a|
  {
    if a == [] { assert a + b == b; }
    else {
      assert (a + b)[0] == a[0] && (a + b)[1..] == a[1..] + b;
      AfterGapsConcat(Run(p, a[0].moves), a[1..], b);
    }
  }

  lemma {:induction false} RunRetires(p: Page, ms: seq<Move>)
    ensures Run(p, ms).obsolete <==> p.obsolete || MoveObsolete in ms
    decreases |ms|
  {
    if ms != [] {
      RunRetires(p, ms[..|ms| - 1]);
      assert ms == ms[..|ms| - 1] + [ms[|ms| - 1]];
    }
  }

  lemma {:induction false} GapsAreLater(p: Page, gaps: seq<Gap>)
    ensures Later(p, AfterGaps(p, gaps))
    ensures AfterGaps(p, gaps).obsolete <==> p.obsolete || Retires(gaps)
    decreases |gaps|
  {
    hide Later, Run;
    if gaps == [] {
      LaterReflexive(p);
    } else {
      RunIsLater(p, gaps[0].moves);
      RunRetires(p, gaps[0].moves);
      GapsAreLater(Run(p, gaps[0].moves), gaps[1..]);
      LaterTransitive(p, Run(p, gaps[0].moves));
      if Retires(gaps[1..]) {
        var i :| 0 <= i < |gaps| - 1 && MoveObsolete in gaps[1..][i].moves;
        assert MoveObsolete in gaps[i + 1].moves;
      }
      if Retires(gaps) {
        var i :| 0 <= i < |gaps| && MoveObsolete in gaps[i].moves;
        if i > 0 { assert gaps[1..][i - 1] == gaps[i]; }
      }
    }
  }

  lemma ThroughThrough(s: Sync, t: Sync, u: Sync)
    requires Through(s, t) && Through(t, u)
    ensures Through(s, u)
  {
    var m, n := |s.plan| - |t.plan|, |t.plan| - |u.plan|;
    assert s.plan[..m + n] == s.plan[..m] + t.plan[..n];
    AfterGapsConcat(s.page, s.plan[..m], t.plan[..n]);
  }

  /** A step that keeps page and plan, or drops the lock. */
  lemma StepThrough(s: Sync, t: Sync)
    requires (t.page == s.page && t.plan == s.plan) || (t.page == Dropped(s).page && t.plan == Dropped(s).plan)
    ensures Through(s, t)
  {
    if t.plan != s.plan {
      assert s.plan[..1][0] == s.plan[0] && s.plan[..1][1..] == [];
    } else {
      assert s.plan[..0] == [];
    }
  }

  lemma RoundThrough(s: Sync, overlay: bool, grabbed: bool)
    ensures Through(s, Round(s, overlay, grabbed))
  {
    hide Through, Dropped;
    var a := s.(last := s.last.(mbuf := s.page.mbuf));
    var b := SyncedClip(a);
    var c := SyncedCurs(b);
    var d := SyncedRtn(c, grabbed);
    StepThrough(a, b);
    StepThrough(b, c);
    StepThrough(c, d);
    ThroughThrough(a, b, c);
    ThroughThrough(a, c, d);
    SamePlace(a, s, d, Round(s, overlay, grabbed));
  }

  lemma SamePlace(a: Sync, s: Sync, d: Sync, t: Sync)
    requires Through(a, d) && a.page == s.page && a.plan == s.plan && d.page == t.page && d.plan == t.plan
    ensures Through(s, t)
  {
  }

  /** The loop goes forward through the server's plan, first to its last test and then to its end. */
  lemma {:induction false} LoopThrough(s: Sync, overlay: bool, grabbed: bool)
    ensures var e := LoopEnd(s, overlay, grabbed);
      Through(s, e.test) && Through(e.test, e.last) && (s.page.obsolete ==> e.test == s)
    decreases |s.plan|
  {
    hide Through, Round;
    StepThrough(s, s);
    if !s.page.obsolete {
      var t := Round(s, overlay, grabbed);
      RoundThrough(s, overlay, grabbed);
      if Again(t, overlay) && |t.plan| < |s.plan| {
        LoopThrough(t, overlay, grabbed);
        ThroughThrough(s, t, LoopEnd(t, overlay, grabbed).test);
      }
    }
  }

  lemma LoopIsLater(s: Sync, overlay: bool, grabbed: bool)
    ensures var e := LoopEnd(s, overlay, grabbed);
      && Through(s, e.last) && Later(s.page, e.last.page)
      && (e.test.page.obsolete ==> e.last.page.obsolete) && (s.page.obsolete ==> e.test.page.obsolete)
  {
    hide LoopEnd, Later, Round;
    var e := LoopEnd(s, overlay, grabbed);
    LoopThrough(s, overlay, grabbed);
    GapsAreLater(e.test.page, e.test.plan[..|e.test.plan| - |e.last.plan|]);
    ThroughThrough(s, e.test, e.last);
    GapsAreLater(s.page, s.plan[..|s.plan| - |e.last.plan|]);
  }

  /** The window is retired when the loop ends, and the loop has not noticed. */
  predicate Missed(e: End) {
    e.last.page.obsolete && !e.test.page.obsolete
  }

  lemma SliceOfRest(plan: seq<Gap>, before: nat, within: nat)
    requires before + within <= |plan|
    ensures plan[before..][..within] == plan[before..before + within]
  {
  }

  /** That is so exactly when the window is retired in the gaps of the last round, and not before. */
  lemma MissedInLastRound(s: Sync, overlay: bool, grabbed: bool)
    ensures var e := LoopEnd(s, overlay, grabbed);
      var before, within := |s.plan| - |e.test.plan|, |e.test.plan| - |e.last.plan|;
      && before >= 0 && within >= 0 && before + within <= |s.plan|
      && (Missed(e) <==> !s.page.obsolete && !Retires(s.plan[..before]) && Retires(s.plan[before..before + within]))
  {
    hide LoopEnd, Later, Retires, AfterGaps;
    var e := LoopEnd(s, overlay, grabbed);
    LoopThrough(s, overlay, grabbed);
    var before, within := |s.plan| - |e.test.plan|, |e.test.plan| - |e.last.plan|;
    GapsAreLater(s.page, s.plan[..before]);
    GapsAreLater(e.test.page, e.test.plan[..within]);
    SliceOfRest(s.plan, before, within);
  }

  /** If the server retires the window in no gap, nothing is missed. */
  lemma NothingMissed(s: Sync, overlay: bool, grabbed: bool)
    requires NeverRetired(s.plan)
    ensures var e := LoopEnd(s, overlay, grabbed);
      !Missed(e) && (e.last.page.obsolete <==> s.page.obsolete) && NeverRetired(e.last.plan)
  {
    hide LoopEnd, Later;
    var e := LoopEnd(s, overlay, grabbed);
    LoopIsLater(s, overlay, grabbed);
    MissedInLastRound(s, overlay, grabbed);
    GapsAreLater(s.page, s.plan[..|s.plan| - |e.last.plan|]);
  }

  /** told names every attribute whose count moved between the pages s and p, and a change of overlay
      state from ovlState. */
  predicate Told(told: set<Change>, s: Page, ovlState: int, p: Page, overlay: bool) {
    && (s.clip != p.clip ==> ChClip in told)
    && (s.curs != p.curs ==> ChCursor in told)
    && (s.rtn != p.rtn ==> ChBstore in told)
    && (s.devinfo != p.devinfo ==> ChDevinfo in told)
    && (s.mbuf != p.mbuf ==> {ChClip, ChCursor, ChBstore, ChSite} <= told)
    && (overlay && ovlState != p.ovlState ==> ChOvlState in told)
  }

  /** told names just what an update going from s to t had to tell: what differs from what was reported to
      the client before, everything after a multibuffer change, a retained window that was unmapped, an
      overlay state found to differ, and the site at the first lock. */
  predicate ToldExactly(told: set<Change>, s: Sync, t: Sync, grabbed: bool, devinfo: nat, locked: bool) {
    var mbuf := s.last.mbuf != t.page.mbuf;
    && (ChClip in told <==> s.last.clip != t.page.clip || mbuf)
    && (ChCursor in told <==> s.last.curs != t.page.curs || mbuf)
    && (ChBstore in told <==> s.last.rtn != t.page.rtn || mbuf || (grabbed && !s.mapped))
    && (ChDevinfo in told <==> devinfo != t.page.devinfo)
    && (ChOvlState in told <==> t.ovlMoved)
    && (ChSite in told <==> mbuf || !locked)
    && ChZombie !in told && ChMbufset !in told
  }

  /** The overlay state is found to differ only if it did at some point of the gaps gone through, and
      always if it differs in the end. */
  lemma {:induction false} OvlMovedWhere(s: Sync, overlay: bool, grabbed: bool)
    requires !s.ovlMoved
    ensures var e := LoopEnd(s, overlay, grabbed);
      && |e.last.plan| <= |s.plan|
      && (e.last.ovlMoved ==> overlay && exists n :: 0 <= n <= |s.plan| - |e.last.plan| && StateAt(s, n) != s.ovl)
      && (e.last.ovl != s.ovl ==> e.last.ovlMoved)
    decreases |s.plan|
  {
    hide Round, LoopEnd;
    LoopStep(s, overlay, grabbed);
    LoopThrough(s, overlay, grabbed);
    ThroughThrough(s, LoopEnd(s, overlay, grabbed).test, LoopEnd(s, overlay, grabbed).last);
    if !s.page.obsolete {
      var t := Round(s, overlay, grabbed);
      var used := |s.plan| - |t.plan|;
      RoundThrough(s, overlay, grabbed);
      RoundOvl(s, overlay, grabbed);
      if t.ovlMoved {
        assert StateAt(s, used) != s.ovl;
        StaysMoved(t, overlay, grabbed);
        LoopThrough(t, overlay, grabbed);
      } else if Again(t, overlay) && |t.plan| < |s.plan| {
        OvlMovedWhere(t, overlay, grabbed);
        var e := LoopEnd(t, overlay, grabbed);
        if e.last.ovlMoved {
          var n :| 0 <= n <= |t.plan| - |e.last.plan| && StateAt(t, n) != t.ovl;
          assert s.plan[..used + n] == s.plan[..used] + t.plan[..n];
          AfterGapsConcat(s.page, s.plan[..used], t.plan[..n]);
          assert StateAt(s, used + n) != s.ovl;
        }
      }
    }
  }

  /** The overlay state after the first n gaps of the plan. */
  ghost function StateAt(s: Sync, n: int): int {
    if 0 <= n <= |s.plan| then AfterGaps(s.page, s.plan[..n]).ovlState else s.ovl
  }

  lemma RoundOvl(s: Sync, overlay: bool, grabbed: bool)
    ensures var t := Round(s, overlay, grabbed);
      && (t.ovlMoved <==> s.ovlMoved || (overlay && t.page.ovlState != s.ovl))
      && t.ovl == if overlay then t.page.ovlState else s.ovl
  {
    hide SyncedClip, SyncedCurs, SyncedRtn;
    var a := s.(last := s.last.(mbuf := s.page.mbuf));
    KeepOvl(a, grabbed);
    KeepOvl(SyncedClip(a), grabbed);
    KeepOvl(SyncedCurs(SyncedClip(a)), grabbed);
  }

  lemma KeepOvl(s: Sync, grabbed: bool)
    ensures forall t :: t in {SyncedClip(s), SyncedCurs(s), SyncedRtn(s, grabbed)} ==> t.ovl == s.ovl && t.ovlMoved == s.ovlMoved
  {
    hide Run;
  }

  lemma {:induction false} StaysMoved(s: Sync, overlay: bool, grabbed: bool)
    requires s.ovlMoved
    ensures LoopEnd(s, overlay, grabbed).last.ovlMoved
    decreases |s.plan|
  {
    hide Round;
    if !s.page.obsolete {
      var t := Round(s, overlay, grabbed);
      RoundOvl(s, overlay, grabbed);
      if Again(t, overlay) && |t.plan| < |s.plan| { StaysMoved(t, overlay, grabbed); }
    }
  }

  /** The client side of a window that is never multibuffered when the client looks. The copies it
      holds of the clip list, cursor and retained state carry, as ghosts, the count they were taken at. */
  class DgaWindow {
    const server: Server
    const isOverlay: bool
    const siteNotify: bool       // a site notification function is registered
    const ovlStateNotify: bool
    const rtnGrabbed: bool
    var rtnMapped: bool
    var cClip: nat               // counts last reported to the client
    var cCurs: int
    var cRtn: nat
    var cMbuf: nat
    var cCompos: nat
    var cDevinfo: nat
    var cOvlState: int
    var cChng: nat               // c_wm_chngcnt[0]
    var changeMask: set<Change>
    var siteReason: SiteReason
    var prevLocked: bool
    var lockCount: nat
    var modif: set<Change>       // the answer of DGA_DRAW_MODIF
    ghost var haveClip: nat
    ghost var haveCurs: int
    ghost var haveRtn: nat
    ghost var delivered: set<Change>  // told to a notification function by the last update
    ghost var dead: bool         // the last update found the window retired
    ghost var seen: Page         // the page when the last update ended

    constructor (server: Server, isOverlay: bool, siteNotify: bool, ovlStateNotify: bool, rtnGrabbed: bool)
      requires 0 < server.page.chng
      ensures Valid() && this.server == server && lockCount == 0 && !dead
      ensures this.isOverlay == isOverlay && this.rtnGrabbed == rtnGrabbed
      ensures cClip == cRtn == cMbuf == cDevinfo == 0 && cCurs == haveCurs == server.page.curs - 1
      ensures cChng == 0 && seen == server.page.(chng := 0) && haveClip == haveRtn == 0
    {
      this.server, this.isOverlay, this.siteNotify, this.ovlStateNotify, this.rtnGrabbed :=
        server, isOverlay, siteNotify, ovlStateNotify, rtnGrabbed;
      rtnMapped := false;
      cClip, cCurs, cRtn, cMbuf, cCompos, cDevinfo, cOvlState, cChng :=
        0, server.page.curs - 1, 0, 0, 0, 0, 0, 0;
      changeMask, siteReason, prevLocked, lockCount, modif := {}, SiteUnknown, false, 0, {};
      haveClip, haveCurs, haveRtn := 0, server.page.curs - 1, 0;
      delivered, dead := {}, false;
      seen := server.page.(chng := 0);
    }

    /** Every copy the client holds is the server's. */
    ghost predicate Synced()
      reads this, server
    {
      && haveClip == server.page.clip && haveCurs == server.page.curs && haveRtn == server.page.rtn
      && cMbuf == server.page.mbuf && cDevinfo == server.page.devinfo
      && (isOverlay ==> cOvlState == server.page.ovlState)
    }

    /** Reported counts never run ahead of the copies, nor the copies ahead of the server. */
    ghost predicate Ordered()
      reads this, server
    {
      && cClip <= haveClip <= server.page.clip
      && cCurs <= haveCurs <= server.page.curs
      && cRtn <= haveRtn <= server.page.rtn
      && cMbuf <= server.page.mbuf && cDevinfo <= server.page.devinfo
    }

    /** Nothing changes without the master count moving, so a count equal to the server's means the
        client is in step, or already knows that the window is gone. */
    ghost predicate Valid()
      reads this, server
    {
      && Ordered() && Later(seen, server.page) && cChng == seen.chng
      && haveClip <= seen.clip && haveCurs <= seen.curs && haveRtn <= seen.rtn
      && cDevinfo <= seen.devinfo && cMbuf <= seen.mbuf && (dead ==> seen.obsolete)
      && (cChng == server.page.chng ==> dead || Synced())
    }

    // ---------- Update phase ----------

    /** The counts in last have been refreshed or reported; those that differ from what was
        reported to the client are in the mask. */
    ghost predicate Tracks(last: LastSeqs)
      reads this, server
    {
      && Ordered() && cMbuf == last.mbuf
      && cClip <= last.clip <= haveClip && cCurs <= last.curs <= haveCurs && cRtn <= last.rtn <= haveRtn
      && (last.clip != cClip ==> ChClip in changeMask)
      && (last.curs != cCurs ==> ChCursor in changeMask)
      && (last.rtn != cRtn ==> ChBstore in changeMask)
      && ChSite !in changeMask && ChDevinfo !in changeMask
    }

    /** Nothing is in the mask without reason: a count that has moved, a multibuffer change, or a retained
        window that was unmapped from the start. */
    ghost predicate OnlyDue(last: LastSeqs, unmapped: bool)
      reads this
    {
      && (ChClip in changeMask ==> last.clip != cClip || ChMbufset in changeMask)
      && (ChCursor in changeMask ==> last.curs != cCurs || ChMbufset in changeMask)
      && (ChBstore in changeMask ==> last.rtn != cRtn || ChMbufset in changeMask || unmapped)
      && (rtnGrabbed && !rtnMapped ==> last.rtn != cRtn || unmapped)
    }

    method SyncZombie(ghost last: LastSeqs, ghost unmapped: bool) returns (zombie: bool)
      requires Tracks(last) && OnlyDue(last, unmapped)
      modifies this`changeMask
      ensures Tracks(last) && OnlyDue(last, unmapped)
      ensures zombie == server.page.obsolete
      ensures changeMask == old(changeMask) + if zombie then {ChZombie} else {}
    {
      zombie := server.page.obsolete;
      if zombie { changeMask := changeMask + {ChZombie}; }
    }

    /** Multibuffering came and went: nothing is multibuffered now, but everything is reported. */
    method MbUpdate()
      modifies this`changeMask, this`cCompos
      ensures changeMask == old(changeMask) + {ChMbufset} + WIN_CHANGEABLE_ATTRS
      ensures cCompos == server.page.compos
    {
      if cCompos != server.page.compos { cCompos := server.page.compos; }
      changeMask := changeMask + ({ChMbufset} + WIN_CHANGEABLE_ATTRS);
    }

    /** Whether the copies agree with the page, going by the counts in last. */
    predicate InStep(last: LastSeqs)
      reads this, server
    {
      && last.clip == server.page.clip && last.curs == server.page.curs && last.rtn == server.page.rtn
      && (isOverlay ==> cOvlState == server.page.ovlState)
    }

    /** Where the synchronization stands, with these counts. */
    ghost function At(last: LastSeqs): Sync
      reads this, server
    {
      Sync(server.page, server.plan, last, cOvlState, rtnMapped, ChOvlState in changeMask)
    }

    /** Where it begins: with the counts last reported to the client. */
    ghost function Entry(): Sync
      reads this, server
    {
      Sync(server.page, server.plan, LastSeqs(cMbuf, cClip, cCurs, cRtn), cOvlState, rtnMapped, false)
    }

    /** The end it will come to. */
    ghost function Ending(): End
      reads this, server
    {
      LoopEnd(Entry(), isOverlay, rtnGrabbed)
    }

    /** Refreshes the clip list if its count differs. */
    method SyncClip(last: LastSeqs, ghost unmapped: bool) returns (next: LastSeqs, ghost moved: bool)
      requires Tracks(last) && OnlyDue(last, unmapped)
      modifies this`changeMask, this`haveClip, server`page, server`plan
      ensures Tracks(next) && OnlyDue(next, unmapped)
      ensures old(changeMask) <= changeMask && (ChZombie in changeMask <==> ChZombie in old(changeMask))
      ensures ChMbufset in changeMask <==> ChMbufset in old(changeMask)
      ensures Evolves(old(server.page), old(server.plan), server.page, server.plan, moved)
      ensures At(next) == SyncedClip(old(At(last)))
      ensures next.clip == server.page.clip
    {
      next, moved := last, false;
      if last.clip != server.page.clip {
        changeMask := changeMask + {ChClip};
        var _, m := server.Relock();
        haveClip := server.page.clip;
        next, moved := last.(clip := server.page.clip), m;
      }
    }

    /** Refreshes the cursor if its count differs. */
    method SyncCurs(last: LastSeqs, ghost unmapped: bool) returns (next: LastSeqs, ghost moved: bool)
      requires Tracks(last) && OnlyDue(last, unmapped)
      modifies this`changeMask, this`haveCurs, server`page, server`plan
      ensures Tracks(next) && OnlyDue(next, unmapped)
      ensures old(changeMask) <= changeMask && (ChZombie in changeMask <==> ChZombie in old(changeMask))
      ensures ChMbufset in changeMask <==> ChMbufset in old(changeMask)
      ensures Evolves(old(server.page), old(server.plan), server.page, server.plan, moved)
      ensures At(next) == SyncedCurs(old(At(last)))
      ensures next.curs == server.page.curs && next.clip == last.clip
    {
      next, moved := last, false;
      if last.curs != server.page.curs {
        changeMask := changeMask + {ChCursor};
        var _, m := server.Relock();
        haveCurs := server.page.curs;
        next, moved := last.(curs := server.page.curs), m;
      }
    }

    /** Refreshes the retained state if its count differs or the retained window is not mapped. */
    method SyncRtn(last: LastSeqs, ghost unmapped: bool) returns (next: LastSeqs, ghost moved: bool)
      requires Tracks(last) && OnlyDue(last, unmapped)
      modifies this`changeMask, this`haveRtn, this`rtnMapped, server`page, server`plan
      ensures Tracks(next) && OnlyDue(next, unmapped)
      ensures old(changeMask) <= changeMask && (ChZombie in changeMask <==> ChZombie in old(changeMask))
      ensures ChMbufset in changeMask <==> ChMbufset in old(changeMask)
      ensures rtnGrabbed && !old(rtnMapped) ==> ChBstore in changeMask
      ensures Evolves(old(server.page), old(server.plan), server.page, server.plan, moved)
      ensures At(next) == SyncedRtn(old(At(last)), rtnGrabbed)
      ensures next.rtn == server.page.rtn && next.clip == last.clip && next.curs == last.curs
    {
      hide Run, NeverRetired;
      next, moved := last, false;
      if last.rtn != server.page.rtn || (rtnGrabbed && !rtnMapped) {
        changeMask := changeMask + {ChBstore};
        var mapped, m := server.Relock();
        haveRtn := server.page.rtn;
        if m { rtnMapped := mapped; }
        next, moved := last.(rtn := server.page.rtn), m;
      }
    }

    method SyncAttributes(last: LastSeqs, ghost unmapped: bool) returns (next: LastSeqs, ghost moved: bool)
      requires Tracks(last) && OnlyDue(last, unmapped)
      modifies this`changeMask, this`rtnMapped, this`haveClip, this`haveCurs, this`haveRtn, server`page, server`plan
      ensures Tracks(next) && OnlyDue(next, unmapped) && old(changeMask) <= changeMask
      ensures ChZombie in changeMask <==> ChZombie in old(changeMask)
      ensures ChMbufset in changeMask <==> ChMbufset in old(changeMask)
      ensures rtnGrabbed && !old(rtnMapped) ==> ChBstore in changeMask
      ensures Evolves(old(server.page), old(server.plan), server.page, server.plan, moved)
      ensures !moved ==> next.clip == server.page.clip && next.curs == server.page.curs && next.rtn == server.page.rtn
      ensures At(next) == SyncedRtn(SyncedCurs(SyncedClip(old(At(last)))), rtnGrabbed)
    {
      hide Later, NeverRetired, Tracks, SyncedClip, SyncedCurs, SyncedRtn;
      ghost var m1, m2, m3;
      next, m1 := SyncClip(last, unmapped);
      LaterTransitive(old(server.page), server.page);
      next, m2 := SyncCurs(next, unmapped);
      LaterTransitive(old(server.page), server.page);
      next, m3 := SyncRtn(next, unmapped);
      moved := m1 || m2 || m3;
    }

    method SyncChanges(last: LastSeqs, ghost unmapped: bool) returns (next: LastSeqs, ghost moved: bool)
      requires Tracks(last) && OnlyDue(last, unmapped)
      modifies this`changeMask, this`cOvlState, this`rtnMapped, this`haveClip, this`haveCurs, this`haveRtn
      modifies server`page, server`plan
      ensures Tracks(next) && OnlyDue(next, unmapped) && old(changeMask) <= changeMask
      ensures ChZombie in changeMask <==> ChZombie in old(changeMask)
      ensures ChMbufset in changeMask <==> ChMbufset in old(changeMask)
      ensures rtnGrabbed && !old(rtnMapped) ==> ChBstore in changeMask
      ensures Evolves(old(server.page), old(server.plan), server.page, server.plan, moved)
      ensures if moved then |server.plan| < |old(server.plan)| else InStep(next) && server.page == old(server.page)
      ensures isOverlay ==> cOvlState == server.page.ovlState
      ensures cOvlState != old(cOvlState) ==> ChOvlState in changeMask
      ensures next.mbuf == last.mbuf
      ensures At(next) == SyncedAll(old(At(last)), isOverlay, rtnGrabbed)
    {
      hide Later, NeverRetired, SyncedClip, SyncedCurs, SyncedRtn;
      next, moved := SyncAttributes(last, unmapped);
      if isOverlay && cOvlState != server.page.ovlState {
        changeMask := changeMask + {ChOvlState};
        cOvlState := server.page.ovlState;
      }
    }

    method SyncAgain(last: LastSeqs) returns (again: bool)
      ensures again <==> last.mbuf != server.page.mbuf || !InStep(last)
    {
      if last.mbuf != server.page.mbuf { return true; }
      if last.clip == server.page.clip && last.curs == server.page.curs && last.rtn == server.page.rtn
         && (!isOverlay || cOvlState == server.page.ovlState) {
        return false;
      }
      return true;
    }

    /** Takes a multibuffer change over, and reports it on everything. */
    method SyncMbuf(last: LastSeqs, ghost unmapped: bool) returns (next: LastSeqs)
      requires Tracks(last) && OnlyDue(last, unmapped)
      modifies this`changeMask, this`cMbuf, this`cCompos
      ensures Tracks(next) && OnlyDue(next, unmapped) && next == last.(mbuf := server.page.mbuf)
      ensures old(cMbuf) <= cMbuf == server.page.mbuf
      ensures changeMask == old(changeMask) + if cMbuf != old(cMbuf) then WIN_CHANGEABLE_ATTRS + {ChMbufset} else {}
    {
      next := last;
      if last.mbuf != server.page.mbuf {
        MbUpdate();
        next := last.(mbuf := server.page.mbuf);
        cMbuf := next.mbuf;
      }
    }

    /** One round of the synchronization loop of dgai_win_update. */
    method SyncRound(last: LastSeqs, ghost unmapped: bool) returns (next: LastSeqs, zombie: bool, again: bool, ghost moved: bool)
      requires Tracks(last) && OnlyDue(last, unmapped) && ChZombie !in changeMask
      modifies this`changeMask, this`cMbuf, this`cCompos, this`cOvlState, this`rtnMapped
      modifies this`haveClip, this`haveCurs, this`haveRtn, server`page, server`plan
      ensures zombie == old(server.page).obsolete && (ChZombie in changeMask <==> zombie)
      ensures Tracks(next) && OnlyDue(next, unmapped) && old(changeMask) <= changeMask
      ensures zombie ==> server.page == old(server.page) && server.plan == old(server.plan)
      ensures !zombie && rtnGrabbed && !old(rtnMapped) ==> ChBstore in changeMask
      ensures old(cMbuf) <= cMbuf && (ChMbufset in changeMask <==> ChMbufset in old(changeMask) || cMbuf != old(cMbuf))
      ensures Evolves(old(server.page), old(server.plan), server.page, server.plan, moved)
      ensures !zombie && again ==> |server.plan| < |old(server.plan)|
      ensures !zombie && !again ==> next.mbuf == server.page.mbuf && InStep(next)
      ensures cOvlState != old(cOvlState) ==> ChOvlState in changeMask
      ensures cMbuf != old(cMbuf) ==> WIN_CHANGEABLE_ATTRS + {ChMbufset} <= changeMask
      ensures At(next) == if zombie then old(At(last)) else Round(old(At(last)), isOverlay, rtnGrabbed)
      ensures !zombie ==> (again <==> Again(At(next), isOverlay))
    {
      hide Evolves, SyncedAll, Tracks, OnlyDue;
      next, again, moved := last, false, false;
      EvolvesNot(server.page, server.plan);
      zombie := SyncZombie(last, unmapped);
      if zombie { return; }
      next := SyncMbuf(last, unmapped);
      next, moved := SyncChanges(next, unmapped);
      again := SyncAgain(next);
    }

    /** The synchronization loop. It ends after finitely many gaps in which the server moves, just where
        LoopEnd says. */
    method Synchronize()
      requires Ordered()
      modifies this`changeMask, this`cMbuf, this`cCompos, this`cOvlState, this`rtnMapped
      modifies this`haveClip, this`haveCurs, this`haveRtn, server`page, server`plan
      ensures Ordered() && Later(old(server.page), server.page)
      ensures var e := old(Ending());
        server.page == e.last.page && server.plan == e.last.plan && (ChZombie in changeMask <==> e.test.page.obsolete)
      ensures ChSite !in changeMask && ChDevinfo !in changeMask
      ensures ChZombie !in changeMask ==> AttributesSynced() && AttributesReported()
      ensures cOvlState != old(cOvlState) ==> ChOvlState in changeMask
      ensures cMbuf != old(cMbuf) ==> WIN_CHANGEABLE_ATTRS + {ChMbufset} <= changeMask
      ensures ChZombie !in changeMask ==> OnlyTold(old(Entry()), old(Ending()).last)
      ensures ChMbufset in changeMask <==> cMbuf != old(cMbuf)
    {
      hide Later, NeverRetired, Round, Tracks, OnlyDue, OnlyTold, AttributesSynced, AttributesReported, LoopEnd;
      // begin with what the client has been told
      var last := LastSeqs(cMbuf, cClip, cCurs, cRtn);
      changeMask := {};
      LaterReflexive(server.page);
      ghost var unmapped, first := rtnGrabbed && !rtnMapped, true;
      ghost var s := At(last);
      AtStart(last, unmapped);
      while true
        invariant Tracks(last) && OnlyDue(last, unmapped) && Later(old(server.page), server.page)
        invariant ChMbufset in changeMask <==> cMbuf != old(cMbuf)
        invariant old(cMbuf) <= cMbuf && (first ==> At(last) == old(Entry()))
        invariant !first && unmapped ==> ChBstore in changeMask
        invariant ChZombie !in changeMask
        invariant LoopEnd(At(last), isOverlay, rtnGrabbed) == old(Ending())
        invariant cOvlState != old(cOvlState) ==> ChOvlState in changeMask
        invariant cMbuf != old(cMbuf) ==> WIN_CHANGEABLE_ATTRS + {ChMbufset} <= changeMask
        decreases |server.plan|
      {
        LaterTransitive(old(server.page), server.page);
        var zombie, again;
        ghost var moved;
        ghost var before := At(last);
        last, zombie, again, moved := SyncRound(last, unmapped);
        first := false;
        LoopStep(before, isOverlay, rtnGrabbed);
        if zombie || !again {
          TracksHolds(last);
          if !zombie { InTheEnd(last, s, unmapped); }
          break;
        }
      }
    }

    ghost predicate AttributesSynced()
      reads this, server
    {
      && haveClip == server.page.clip && haveCurs == server.page.curs && haveRtn == server.page.rtn
      && cMbuf == server.page.mbuf
      && (isOverlay ==> cOvlState == server.page.ovlState)
    }

    /** Every count that differs from the one last reported to the client is in the mask. */
    ghost predicate AttributesReported()
      reads this, server
    {
      && (cClip != server.page.clip ==> ChClip in changeMask)
      && (cCurs != server.page.curs ==> ChCursor in changeMask)
      && (cRtn != server.page.rtn ==> ChBstore in changeMask)
    }

    /** The mask holds what the loop had to find from s on, ending at t, and no more. */
    ghost predicate OnlyTold(s: Sync, t: Sync)
      reads this
    {
      var mbuf := s.last.mbuf != t.page.mbuf;
      && (ChClip in changeMask <==> s.last.clip != t.page.clip || mbuf)
      && (ChCursor in changeMask <==> s.last.curs != t.page.curs || mbuf)
      && (ChBstore in changeMask <==> s.last.rtn != t.page.rtn || mbuf || (rtnGrabbed && !s.mapped))
      && (ChOvlState in changeMask <==> t.ovlMoved) && (ChMbufset in changeMask <==> mbuf)
    }

    lemma AtStart(last: LastSeqs, unmapped: bool)
      requires Ordered() && changeMask == {} && last == LastSeqs(cMbuf, cClip, cCurs, cRtn)
      requires unmapped == (rtnGrabbed && !rtnMapped)
      ensures Tracks(last) && OnlyDue(last, unmapped)
    {
    }

    lemma TracksHolds(last: LastSeqs)
      requires Tracks(last)
      ensures Ordered() && ChSite !in changeMask && ChDevinfo !in changeMask
    {
    }

    lemma InTheEnd(last: LastSeqs, s: Sync, unmapped: bool)
      requires Tracks(last) && OnlyDue(last, unmapped) && last.mbuf == server.page.mbuf && InStep(last)
      requires s.last.clip == cClip && s.last.curs == cCurs && s.last.rtn == cRtn && unmapped == (rtnGrabbed && !s.mapped)
      requires (unmapped ==> ChBstore in changeMask) && (ChMbufset in changeMask <==> cMbuf != s.last.mbuf)
      requires cMbuf != s.last.mbuf ==> WIN_CHANGEABLE_ATTRS + {ChMbufset} <= changeMask
      ensures AttributesSynced() && AttributesReported() && OnlyTold(s, At(last))
    {
    }

    method DevinfoUpdate()
      modifies this`changeMask, this`cDevinfo
      ensures ChZombie in old(changeMask) ==> changeMask == old(changeMask) && cDevinfo == old(cDevinfo)
      ensures ChZombie !in old(changeMask) ==> cDevinfo == server.page.devinfo
      ensures ChZombie !in old(changeMask) ==>
        changeMask == old(changeMask) + if old(cDevinfo) != server.page.devinfo then {ChDevinfo} else {}
    {
      if ChZombie in changeMask { return; }
      if cDevinfo != server.page.devinfo {
        changeMask := changeMask + {ChDevinfo};
        cDevinfo := server.page.devinfo;
      }
    }

    /** Why a site change is reported: for a retired window before anything else, for the first lock, or
        for a multibuffer change. */
    predicate Because(reason: SiteReason, zombie: bool, locked: bool, mbuf: bool) {
      && (reason.SiteZombie? <==> zombie)
      && (reason.SiteInitial? <==> !zombie && !locked)
      && (reason.SiteMb? <==> !zombie && locked && mbuf)
    }

    /** When a site change has to be reported too, and for what reason. */
    method FigureDerivChgs()
      modifies this`changeMask, this`siteReason, this`prevLocked
      ensures changeMask == old(changeMask)
        + (if ChZombie in old(changeMask) then {ChSite, ChClip}
           else if !old(prevLocked) || ChMbufset in old(changeMask) then {ChSite} else {})
      ensures ChZombie !in old(changeMask) ==> prevLocked
      ensures Because(siteReason, ChZombie in old(changeMask), old(prevLocked), ChMbufset in old(changeMask))
    {
      siteReason := SiteUnknown;
      if ChZombie in changeMask {
        // a retired window is reported twice over
        changeMask := changeMask + {ChSite, ChClip};
        siteReason := SiteZombie;
        return;
      }
      if !prevLocked {
        changeMask := changeMask + {ChSite};
        siteReason := SiteInitial;
        prevLocked := true;
        return;
      }
      if ChMbufset in changeMask {
        changeMask := changeMask + {ChSite};
        siteReason := SiteMb;
      }
    }

    /** Reports what it can through notification functions; the rest stays in the mask. A multibuffer
        change of a window that has no multibuffers, before or after, is not reported. */
    method Notify()
      modifies this`changeMask, this`siteReason, this`delivered
      ensures delivered == (if siteNotify then {ChSite} else {}) * old(changeMask)
                         + (if ovlStateNotify then {ChOvlState} else {}) * old(changeMask)
      ensures changeMask == old(changeMask) - delivered - {ChMbufset}
      ensures siteReason == if ChSite in delivered then SiteUnknown else old(siteReason)
    {
      delivered := {};
      if ChMbufset in changeMask { changeMask := changeMask - {ChMbufset}; }
      if ChSite in changeMask && siteNotify {
        delivered := delivered + {ChSite};
        changeMask := changeMask - {ChSite};
        siteReason := SiteUnknown;
      }
      if ChOvlState in changeMask && ovlStateNotify {
        delivered := delivered + {ChOvlState};
        changeMask := changeMask - {ChOvlState};
      }
    }

    /** Everything after the synchronization loop that adds to the mask or takes from it. */
    method Report()
      requires cDevinfo <= server.page.devinfo
      modifies this`changeMask, this`cDevinfo, this`siteReason, this`prevLocked, this`delivered
      ensures changeMask + delivered >= old(changeMask) - {ChMbufset}
      ensures ChZombie in changeMask <==> ChZombie in old(changeMask)
      ensures ChZombie in changeMask ==> ChClip in changeMask && ChSite in changeMask + delivered
      ensures ChZombie !in changeMask ==> cDevinfo == server.page.devinfo
      ensures ChZombie !in changeMask && old(cDevinfo) != cDevinfo ==> ChDevinfo in changeMask
      ensures ChMbufset in old(changeMask) ==> ChSite in changeMask + delivered
      ensures {ChClip, ChCursor, ChBstore} * old(changeMask) <= changeMask
      ensures cDevinfo <= server.page.devinfo && (ChZombie !in changeMask ==> prevLocked)
      ensures ChZombie !in changeMask ==>
        changeMask + delivered == old(changeMask) - {ChMbufset}
          + (if old(cDevinfo) != server.page.devinfo then {ChDevinfo} else {})
          + (if !old(prevLocked) || ChMbufset in old(changeMask) then {ChSite} else {})
      ensures if ChSite in delivered then siteReason == SiteUnknown
              else Because(siteReason, ChZombie in changeMask, old(prevLocked), ChMbufset in old(changeMask))
    {
      DevinfoUpdate();
      FigureDerivChgs();
      Notify();
    }

    method SyncAndReport()
      requires Valid()
      modifies this, server`page, server`plan
      ensures Ordered() && lockCount == old(lockCount) && Later(old(server.page), server.page)
      ensures var e := old(Ending());
        server.page == e.last.page && server.plan == e.last.plan && (ChZombie in changeMask <==> e.test.page.obsolete)
      ensures ChZombie in changeMask ==> ChClip in changeMask && ChSite in changeMask + delivered
      ensures ChZombie !in changeMask ==> Synced()
      ensures ChZombie !in changeMask ==>
        Told(changeMask + delivered, old(seen), old(cOvlState), server.page, isOverlay)
      ensures ChZombie !in changeMask ==>
        ToldExactly(changeMask + delivered, old(Entry()), old(Ending()).last, rtnGrabbed, old(cDevinfo), old(prevLocked))
      ensures server.ovlShapeValid == old(server.ovlShapeValid) && (ChZombie !in changeMask ==> prevLocked)
      ensures cClip == old(cClip) && cCurs == old(cCurs) && cRtn == old(cRtn)
      ensures if ChSite in delivered then siteReason == SiteUnknown
              else Because(siteReason, ChZombie in changeMask, old(prevLocked), cMbuf != old(cMbuf))
    {
      hide LoopEnd;
      Synchronize();
      Report();
    }

    /** dgai_win_update, MT off. The page, the server's plan and whether the window is reported retired
        are those LoopEnd finds from the state before the call. */
    method Update() returns (mask: set<Change>)
      requires Valid()
      modifies this, server
      ensures Valid() && lockCount == old(lockCount) && cChng == server.page.chng && seen == server.page
      ensures mask == changeMask && (dead <==> ChZombie in mask)
      ensures var e := old(Ending());
        server.page == e.last.page && server.plan == e.last.plan && (dead <==> e.test.page.obsolete)
      ensures dead ==> ChClip in mask && ChSite in mask + delivered
      ensures !dead ==> Synced() && Told(mask + delivered, old(seen), old(cOvlState), server.page, isOverlay)
      ensures !dead ==> prevLocked && ToldExactly(mask + delivered, old(Entry()), old(Ending()).last, rtnGrabbed, old(cDevinfo), old(prevLocked))
      ensures server.ovlShapeValid == (old(server.ovlShapeValid) && (isOverlay ==> cOvlState == OVLSTATE_CONFLICT))
      ensures cClip == old(cClip) && cCurs == old(cCurs) && cRtn == old(cRtn)
      ensures if ChSite in delivered then siteReason == SiteUnknown
              else Because(siteReason, dead, old(prevLocked), cMbuf != old(cMbuf))
    {
      hide Later, LoopEnd, Told, ToldExactly, Through, Because;
      LoopIsLater(Entry(), isOverlay, rtnGrabbed);
      SyncAndReport();
      LaterReflexive(server.page);
      // in step now, or gone
      cChng := server.page.chng;
      if isOverlay && cOvlState != OVLSTATE_CONFLICT { server.ovlShapeValid := false; }
      dead, seen := ChZombie in changeMask, server.page;
      mask := changeMask;
    }

    // ---------- What a client does ----------

    /** DGA_DRAW_LOCK of the window itself, MT off. The outermost lock brings the client in step; the
        equal-count fast path hides nothing, for it is taken only when the page has not changed. */
    method DrawLock()
      requires Valid()
      modifies this, server
      ensures Valid() && lockCount == old(lockCount) + 1
      ensures cClip == old(cClip) && cCurs == old(cCurs) && cRtn == old(cRtn)
      ensures old(lockCount) > 0 ==>
        server.page == old(server.page) && modif == old(modif) && server.ovlShapeValid == old(server.ovlShapeValid)
      ensures old(lockCount) == 0 ==> server.page == seen && (!dead ==> Synced())
      // fast path: nothing has happened since the last update
      ensures old(lockCount) == 0 && old(cChng == server.page.chng) ==>
        && server.page == old(server.page) == old(seen) && server.plan == old(server.plan)
        && modif == delivered == {} && dead == old(dead) && cOvlState == old(cOvlState)
        && server.ovlShapeValid == old(server.ovlShapeValid)
      // slow path: whatever moved since the last update is reported
      ensures old(lockCount) == 0 && old(cChng != server.page.chng) ==>
        && server.page == old(Ending()).last.page && server.plan == old(Ending()).last.plan
        && (dead <==> ChZombie in modif) && (dead <==> old(Ending()).test.page.obsolete)
        && (dead ==> ChClip in modif && ChSite in modif + delivered)
        && (!dead ==> Told(modif + delivered, old(seen), old(cOvlState), server.page, isOverlay))
        && (!dead ==> ToldExactly(modif + delivered, old(Entry()), old(Ending()).last, rtnGrabbed, old(cDevinfo), old(prevLocked)))
        && server.ovlShapeValid == (old(server.ovlShapeValid) && (isOverlay ==> cOvlState == OVLSTATE_CONFLICT))
    {
      hide LoopEnd, Run, Told, ToldExactly;
      lockCount := lockCount + 1;
      if lockCount == 1 {
        if cChng == server.page.chng {
          modif, delivered := {}, {};
        } else {
          modif := Update();
        }
      }
    }

    method DrawUnlock()
      requires Valid() && lockCount > 0
      modifies this`lockCount
      ensures Valid() && lockCount == old(lockCount) - 1
    {
      lockCount := lockCount - 1;
    }

    /** dga_win_clipchg: the client takes note of the clip list. Under the lock, unless the window is gone,
        its copy is the server's. At any other time it may acknowledge a list it has not refreshed, and
        what it was told then runs ahead of what it has. */
    method ClipChg() returns (changed: bool)
      requires Valid()
      modifies this`cClip
      ensures cClip == server.page.clip && changed == (old(cClip) != cClip)
      ensures Valid() <==> haveClip == server.page.clip
      ensures Synced() <==> old(Synced())
    {
      changed := cClip != server.page.clip;
      if changed { cClip := server.page.clip; }
    }

    /** The server changes the page while nobody holds the lock. */
    method ServerChanges(ms: seq<Move>)
      requires Valid() && lockCount == 0
      modifies server`page
      ensures Valid() && server.page == Run(old(server.page), ms)
    {
      RunIsLater(server.page, ms);
      LaterTransitive(seen, server.page);
      server.page := Run(server.page, ms);
    }
  }

  // ---------- Runs ----------

  /** One outermost lock of a run: the page and the server's plan before and after, what the client has
      seen and the overlay state it holds before, what was told, whether it knows before and after that the
      window is gone, and what it had been told before: where the loop begins, the device info count, and
      whether the window has been locked. */
  datatype Locked = Locked(before: Page, plan: seq<Gap>, seen: Page, ovl: int, wasDead: bool,
                           after: Page, rest: seq<Gap>, report: set<Change>, told: set<Change>, dead: bool,
                           entry: Sync, devinfo: nat, prevLocked: bool)

  /** A lock goes through the first gaps of the plan, and the client learns that the window is gone
      unless it is retired in those gaps. */
  ghost predicate Goes(k: Locked) {
    && k.entry.page == k.before && k.entry.plan == k.plan && k.entry.ovl == k.ovl && !k.entry.ovlMoved
    && |k.rest| <= |k.plan| && k.rest == k.plan[|k.plan| - |k.rest|..]
    && k.after == AfterGaps(k.before, k.plan[..|k.plan| - |k.rest|])
    && (k.dead ==> k.after.obsolete) && (k.wasDead ==> k.dead)
    && (NeverRetired(k.plan) ==> NeverRetired(k.rest) && (k.after.obsolete ==> k.dead || (k.seen.obsolete && !k.wasDead)))
  }

  /** It tells all that moved since the client last looked, and just what it had to, unless the client
      knows or now learns that the window is gone; and nothing when nothing has changed. */
  ghost predicate Tells(k: Locked, overlay: bool, grabbed: bool) {
    && Goes(k) && k.report <= k.told && (k.dead && !k.wasDead ==> ChZombie in k.report)
    && (!k.dead ==> Told(k.told, k.seen, k.ovl, k.after, overlay))
    && (if k.seen.chng == k.before.chng then k.told == {}
        else k.dead || ToldExactly(k.told, k.entry, LoopEnd(k.entry, overlay, grabbed).last, grabbed, k.devinfo, k.prevLocked))
  }

  lemma LoopGoes(k: Locked, overlay: bool, grabbed: bool)
    requires k.entry.page == k.before && k.entry.plan == k.plan && k.entry.ovl == k.ovl && !k.entry.ovlMoved
    requires Later(k.seen, k.before) && (k.wasDead ==> k.seen.obsolete)
    requires var e := LoopEnd(k.entry, overlay, grabbed);
      if k.seen.chng == k.before.chng then k.after == k.before && k.rest == k.plan && k.dead == k.wasDead
      else k.after == e.last.page && k.rest == e.last.plan && k.dead == e.test.page.obsolete
    ensures Goes(k)
  {
    hide LoopEnd, Run, AfterGaps, NeverRetired;
    LoopIsLater(k.entry, overlay, grabbed);
    if NeverRetired(k.plan) { NothingMissed(k.entry, overlay, grabbed); }
    NoGaps(k.before, k.plan);
  }

  /** The next lock begins where the last one ended, after the given server changes. */
  ghost predicate Follows(k: Locked, ms: seq<Move>, l: Locked, overlay: bool) {
    && l.before == Run(k.after, ms) && l.plan == k.rest && l.seen == k.after && l.wasDead == k.dead
    && (overlay && !k.dead ==> l.ovl == k.after.ovlState)
  }

  /** Over any run of server changes, gaps and locks: the pages are those the given changes and the gaps
      of the plan make; every lock tells what moved since the lock before; and at the end the client is in
      step or knows that the window is gone. */
  method Session(w: DgaWindow, rounds: seq<seq<Move>>) returns (ghost locks: seq<Locked>)
    requires w.Valid() && w.lockCount == 0
    modifies w, w.server
    ensures w.Valid() && w.lockCount == 0 && |locks| == |rounds|
    ensures forall i :: 0 <= i < |rounds| ==> Tells(locks[i], w.isOverlay, w.rtnGrabbed)
    ensures forall i :: 0 < i < |rounds| ==> Follows(locks[i - 1], rounds[i], locks[i], w.isOverlay)
    ensures rounds != [] ==>
      && locks[0].before == Run(old(w.server.page), rounds[0]) && locks[0].plan == old(w.server.plan)
      && locks[0].seen == old(w.seen) && locks[0].ovl == old(w.cOvlState) && locks[0].wasDead == old(w.dead)
    ensures rounds != [] ==>
      var k := locks[|rounds| - 1];
      && w.seen == w.server.page == k.after && w.server.plan == k.rest && w.dead == k.dead && (w.dead || w.Synced())
  {
    hide Tells, Follows, Run;
    locks := [];
    for i := 0 to |rounds|
      invariant w.Valid() && w.lockCount == 0 && |locks| == i
      invariant i == 0 ==> w.server.page == old(w.server.page) && w.server.plan == old(w.server.plan)
      invariant i == 0 ==> w.seen == old(w.seen) && w.cOvlState == old(w.cOvlState) && w.dead == old(w.dead)
      invariant i > 0 ==>
        && locks[0].before == Run(old(w.server.page), rounds[0]) && locks[0].plan == old(w.server.plan)
        && locks[0].seen == old(w.seen) && locks[0].ovl == old(w.cOvlState) && locks[0].wasDead == old(w.dead)
      invariant i > 0 ==> Ends(w, locks[i - 1])
      invariant forall j :: 0 <= j < i ==> Tells(locks[j], w.isOverlay, w.rtnGrabbed)
      invariant forall j :: 0 < j < i ==> Follows(locks[j - 1], rounds[j], locks[j], w.isOverlay)
    {
      ghost var k := ChangesAndLock(w, rounds[i]);
      if i > 0 { FollowsOn(locks[i - 1], rounds[i], k, w.isOverlay); }
      locks := locks + [k];
    }
  }

  /** The lock k has just ended. */
  ghost predicate Ends(w: DgaWindow, k: Locked)
    reads w, w.server
  {
    && w.seen == w.server.page == k.after && w.server.plan == k.rest && w.dead == k.dead && (w.dead || w.Synced())
  }

  lemma FollowsOn(k: Locked, ms: seq<Move>, l: Locked, overlay: bool)
    requires l.before == Run(k.after, ms) && l.plan == k.rest && l.seen == k.after && l.wasDead == k.dead
    requires overlay && !k.dead ==> l.ovl == k.after.ovlState
    ensures Follows(k, ms, l, overlay)
  {
  }

  method ChangesAndLock(w: DgaWindow, ms: seq<Move>) returns (ghost k: Locked)
    requires w.Valid() && w.lockCount == 0
    modifies w, w.server
    ensures w.Valid() && w.lockCount == 0 && Ends(w, k) && Tells(k, w.isOverlay, w.rtnGrabbed)
    ensures k.before == Run(old(w.server.page), ms) && k.plan == old(w.server.plan)
    ensures k.seen == old(w.seen) && k.ovl == old(w.cOvlState) && k.wasDead == old(w.dead)
  {
    hide Run, LoopEnd, Later, Told, ToldExactly, Goes;
    ghost var seen, ovl, wasDead := w.seen, w.cOvlState, w.dead;
    w.ServerChanges(ms);
    ghost var s := w.Entry();
    if w.isOverlay ==> ovl == s.page.ovlState { ToldNothing(s.page, ovl, w.isOverlay); }
    ghost var devinfo, locked := w.cDevinfo, w.prevLocked;
    w.DrawLock();
    k := Locked(s.page, s.plan, seen, ovl, wasDead, w.server.page, w.server.plan,
                w.modif, w.modif + w.delivered, w.dead, s, devinfo, locked);
    LoopGoes(k, w.isOverlay, w.rtnGrabbed);
    w.DrawUnlock();
  }

  lemma NoGaps(p: Page, plan: seq<Gap>)
    ensures plan[|plan|..] == [] && AfterGaps(p, plan[..|plan| - |plan|]) == p && plan[|plan| - |plan|..] == plan
  {
  }

  lemma ToldNothing(p: Page, ovl: int, overlay: bool)
    requires overlay ==> ovl == p.ovlState
    ensures Told({} + {}, p, ovl, p, overlay)
  {
  }

  /** Two locks in a row. The first misses a retirement exactly when LoopEnd says so; the counts are equal
      then, the second lock takes the fast path, and goes on doing so while the master count stands still. */
  method TwoLocks(w: DgaWindow) returns (first: set<Change>, second: set<Change>)
    requires w.Valid() && w.lockCount == 0 && w.cChng != w.server.page.chng
    modifies w, w.server
    ensures w.Valid() && w.lockCount == 0 && w.cChng == w.server.page.chng && w.seen == w.server.page
    ensures w.server.page == old(w.Ending()).last.page && second == {}
    ensures w.server.page.obsolete && ChZombie !in first <==> Missed(old(w.Ending()))
    ensures w.dead <==> ChZombie in first
  {
    hide LoopEnd, Later;
    LoopIsLater(w.Entry(), w.isOverlay, w.rtnGrabbed);
    w.DrawLock();
    first := w.modif;
    w.DrawUnlock();
    w.DrawLock();
    second := w.modif;
    w.DrawUnlock();
  }

  /** Such a run: the clip list and the cursor are refreshed, and the server retires the window while the
      lock is dropped for the cursor. */
  method RetirementMissed() returns (first: set<Change>, second: set<Change>, ghost w: DgaWindow)
    ensures fresh(w) && w.Valid() && w.cChng == w.server.page.chng && w.seen == w.server.page
    ensures w.server.page.obsolete && !w.dead && ChZombie !in first && second == {}
  {
    var page := Page(1, 0, 0, 0, 0, 0, 0, false, 1);
    var server := new Server(page, [Gap([], false), Gap([MoveObsolete], false)]);
    var win := new DgaWindow(server, false, false, false, false);
    w := win;
    EndsRetired(page);
    first, second := TwoLocks(win);
  }

  lemma EndsRetired(page: Page)
    requires page == Page(1, 0, 0, 0, 0, 0, 0, false, 1)
    ensures forall ovl, mapped ::
      Missed(LoopEnd(Sync(page, [Gap([], false), Gap([MoveObsolete], false)], LastSeqs(0, 0, -1, 0), ovl, mapped, false), false, false))
  {
    forall ovl, mapped
      ensures Missed(LoopEnd(Sync(page, [Gap([], false), Gap([MoveObsolete], false)], LastSeqs(0, 0, -1, 0), ovl, mapped, false), false, false))
    {
      var gone := Gap([MoveObsolete], false);
      var s := Sync(page, [Gap([], false), gone], LastSeqs(0, 0, -1, 0), ovl, mapped, false);
      assert s.plan[1..] == [gone] && s.plan[0].moves == [] && Run(page, []) == page;
      var b := SyncedClip(s);
      assert b == Sync(page, [gone], LastSeqs(0, 1, -1, 0), ovl, mapped, false);
      assert Run(page, gone.moves) == Step(Run(page, []), MoveObsolete);
      var c := SyncedCurs(b);
      assert c == Sync(Step(page, MoveObsolete), [], LastSeqs(0, 1, 0, 0), ovl, mapped, false);
      assert Round(s, false, false) == c && !Again(c, false);
    }
  }

  lemma EvolvesNot(p: Page, plan: seq<Gap>)
    ensures Evolves(p, plan, p, plan, false)
  {
  }

  lemma LaterReflexive(p: Page)
    ensures Later(p, p)
  {
  }

  lemma LaterTransitive(p: Page, q: Page)
    ensures forall r :: Later(p, q) && Later(q, r) ==> Later(p, r)
  {
  }
}
