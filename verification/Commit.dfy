/** Carrying a new configuration to the X server, one request at a time. */
module Commit {
  import opened Display
  import opened Machine
  import Layout
  import CrtcSearch

  /** The server's picture of the screen: its size and what each CRTC shows. */
  datatype Picture = Picture(width: int, height: int, live: map<Crtc, CrtcConfig>)

  ghost predicate Inside(cfg: CrtcConfig, w: int, h: int) {
    cfg.mode.Some? ==>
      && 0 <= cfg.x && cfg.x + ModeWidth(cfg.mode.value, cfg.rotation) <= w
      && 0 <= cfg.y && cfg.y + ModeHeight(cfg.mode.value, cfg.rotation) <= h
  }

  /** What the server demands at all times: every enabled CRTC lies inside the screen. */
  ghost predicate Safe(p: Picture) {
    forall c :: c in p.live ==> Inside(p.live[c], p.width, p.height)
  }

  ghost predicate AllOff(p: Picture) {
    forall c :: c in p.live ==> p.live[c].mode.None?
  }

  const OFF := CrtcConfig(0, 0, None, Rotate0, [])

  /** A server that answers the n-th CRTC request with accepts(n). It remembers whether every
      request left it safe, and whether it was resized only while every CRTC was off. */
  class Server {
    const accepts: nat -> bool
    var served: nat
    var now: Picture
    ghost var alwaysSafe: bool
    ghost var resizedOnlyDark: bool

    constructor (accepts: nat -> bool, now: Picture)
      ensures this.accepts == accepts && this.now == now && served == 0 && alwaysSafe && resizedOnlyDark
    {
      this.accepts, this.now := accepts, now;
      served, alwaysSafe, resizedOnlyDark := 0, true, true;
    }

    method SetCrtcConfig(c: Crtc, cfg: CrtcConfig) returns (ok: bool)
      requires c in now.live
      modifies this
      ensures ok == accepts(old(served)) && served == old(served) + 1
      ensures now == if ok then old(now).(live := old(now).live[c := cfg]) else old(now)
      ensures alwaysSafe == (old(alwaysSafe) && Safe(now)) && resizedOnlyDark == old(resizedOnlyDark)
    {
      ok := accepts(served);
      served := served + 1;
      if ok { now := now.(live := now.live[c := cfg]); }
      alwaysSafe := alwaysSafe && Safe(now);
    }

    method SetScreenSize(w: int, h: int)
      modifies this
      ensures now == old(now).(width := w, height := h) && served == old(served)
      ensures alwaysSafe == (old(alwaysSafe) && Safe(now))
      ensures resizedOnlyDark == (old(resizedOnlyDark) && AllOff(old(now)))
    {
      resizedOnlyDark := resizedOnlyDark && AllOff(now);
      now := now.(width := w, height := h);
      alwaysSafe := alwaysSafe && Safe(now);
    }
  }

  // ---------- set_crtcs ----------

  /** The outputs of con that are to be driven by c. */
  function Driven(con: seq<Output>, c: Crtc): (os: seq<Output>)
    reads (set o | o in con)`mode, (set o | o in con)`crtc
    ensures forall o :: o in os ==> o in con
  {
    if con == [] then []
    else
      var o := con[|con| - 1];
      Driven(con[..|con| - 1], c) + if o.mode.Some? && o.crtc == c then [o] else []
  }

  /** c is set up for the outputs os, the way the first of them wants it. */
  ghost predicate SetUpFor(c: Crtc, os: seq<Output>)
    reads c, (if os == [] then {} else {os[0]})
  {
    && c.outputs == os
    && (os == [] ==> c.mode == None)
    && (os != [] ==> c.mode == os[0].mode && c.x == os[0].x && c.y == os[0].y && c.rotation == os[0].rotation)
  }

  method CrtcAddOutput(c: Crtc, o: Output)
    modifies c
    ensures c.outputs == old(c.outputs) + [o]
    ensures if old(c.outputs) == [] then c.x == o.x && c.y == o.y && c.rotation == o.rotation && c.mode == o.mode
            else c.x == old(c.x) && c.y == old(c.y) && c.rotation == old(c.rotation) && c.mode == old(c.mode)
  {
    if c.outputs == [] {
      c.x, c.y, c.rotation, c.mode := o.x, o.y, o.rotation, o.mode;
    }
    c.outputs := c.outputs + [o];
  }

  method SetCrtcs(con: seq<Output>, crtcs: set<Crtc>)
    requires forall c :: c in crtcs ==> SetUpFor(c, [])
    requires forall o :: o in con && o.crtc != null ==> o.crtc in crtcs
    modifies crtcs
    ensures forall c :: c in crtcs ==> SetUpFor(c, Driven(con, c))
  {
    hide Driven;
    DrivenByNothing();
    for i := 0 to |con|
      invariant forall c :: c in crtcs ==> SetUpFor(c, Driven(con[..i], c))
    {
      var o := con[i];
      assert o in con;
      DrivenStep(con, i);
      if o.mode.Some? && o.crtc != null {
        CrtcAddOutput(o.crtc, o);
      }
    }
    assert con[..|con|] == con;
  }

  lemma DrivenByNothing()
    ensures forall c :: Driven([], c) == []
  {
  }

  lemma DrivenStep(con: seq<Output>, i: nat)
    requires i < |con|
    ensures forall c ::
      Driven(con[..i + 1], c) == Driven(con[..i], c) + (if con[i].mode.Some? && con[i].crtc == c then [con[i]] else [])
  {
    assert con[..i + 1][..i] == con[..i];
  }

  lemma {:induction false} DrivenMembers(con: seq<Output>, c: Crtc)
    ensures forall o :: o in Driven(con, c) <==> o in con && o.mode.Some? && o.crtc == c
  {
    if con != [] { DrivenMembers(con[..|con| - 1], c); }
  }

  // ---------- apply and revert ----------

  function Xids(os: seq<Output>): seq<int> {
    seq(|os|, i requires 0 <= i < |os| => os[i].xid)
  }

  /** The request crtc_apply makes for c. */
  function Target(c: Crtc): CrtcConfig
    reads c
  {
    CrtcConfig(c.x, c.y, c.mode, c.rotation, Xids(c.outputs))
  }

  /** The server drives exactly these CRTCs. */
  ghost predicate Drives(server: Server, crtcs: seq<Crtc>)
    reads server
  {
    server.now.live.Keys == (set c | c in crtcs) && DistinctCrtcs(crtcs)
  }

  // ---------- revert ----------

  /** At the time revert resizes the screen, CRTC c is off unless disabling it was refused. */
  ghost predicate DarkAtResize(p: Picture, crtcs: seq<Crtc>, accepts: nat -> bool, from: nat)
    requires forall c :: c in crtcs ==> c in p.live
  {
    forall i :: 0 <= i < |crtcs| ==> p.live[crtcs[i]].mode.None? || accepts(from + i)
  }

  /** What revert asks leaves every enabled CRTC inside the screen: one that could not be disabled fits
      the old size, and so does every configuration the server agrees to restore. */
  ghost predicate RevertIsSafe(p: Picture, crtcs: seq<Crtc>, accepts: nat -> bool, from: nat, w: int, h: int)
    requires forall c :: c in crtcs ==> c in p.live
  {
    && (forall i :: 0 <= i < |crtcs| ==> accepts(from + i) || Inside(p.live[crtcs[i]], w, h))
    && RestoreIsSafe(crtcs, accepts, from + |crtcs|, w, h, |crtcs|)
  }

  ghost predicate RestoreIsSafe(crtcs: seq<Crtc>, accepts: nat -> bool, from: nat, w: int, h: int, n: nat)
    requires n <= |crtcs|
  {
    forall i :: 0 <= i < n && accepts(from + i) ==> Inside(crtcs[i].reported, w, h)
  }

  /** What CRTC number i shows after revert. */
  function Reverted(p: Picture, crtcs: seq<Crtc>, accepts: nat -> bool, from: nat, i: nat): CrtcConfig
    requires i < |crtcs| && crtcs[i] in p.live
  {
    if accepts(from + |crtcs| + i) then crtcs[i].reported
    else if accepts(from + i) then OFF else p.live[crtcs[i]]
  }

  /** revert: disable everything, restore the size, restore every CRTC; the answers are ignored. The
      screen is resized with every CRTC off exactly when each CRTC that was on obeyed. */
  method Revert(crtcs: seq<Crtc>, server: Server, displayWidth: int, displayHeight: int)
    requires Drives(server, crtcs) && Safe(server.now)
    modifies server
    ensures Drives(server, crtcs) && server.served == old(server.served) + 2 * |crtcs|
    ensures server.now.width == displayWidth && server.now.height == displayHeight
    ensures forall i :: 0 <= i < |crtcs| ==>
      server.now.live[crtcs[i]] == Reverted(old(server.now), crtcs, server.accepts, old(server.served), i)
    ensures server.resizedOnlyDark ==
      (old(server.resizedOnlyDark) && DarkAtResize(old(server.now), crtcs, server.accepts, old(server.served)))
    ensures server.alwaysSafe ==
      (old(server.alwaysSafe)
       && RevertIsSafe(old(server.now), crtcs, server.accepts, old(server.served), displayWidth, displayHeight))
  {
    hide Safe, Asked, SafeWhileAsked, RevertIsSafe, DarkAtResize, Reverted;
    RevertOutcome(server.now, crtcs, server.accepts, server.served, displayWidth, displayHeight);
    DisableAll(crtcs, server);
    server.SetScreenSize(displayWidth, displayHeight);
    RestoreAll(crtcs, server);
  }

  /** How a revert goes, from the picture p it starts with. */
  lemma RevertOutcome(p: Picture, crtcs: seq<Crtc>, accepts: nat -> bool, from: nat, w: int, h: int)
    requires DistinctCrtcs(crtcs) && p.live.Keys == (set c | c in crtcs) && Safe(p)
    ensures var n := |crtcs|;
      var dark := p.(live := Asked(p.live, crtcs, false, accepts, from, n));
      var sized := dark.(width := w, height := h);
      var last := Asked(sized.live, crtcs, true, accepts, from + n, n);
      && SafeWhileAsked(p, crtcs, false, accepts, from, n) && dark.live.Keys == last.Keys == p.live.Keys
      && (AllOff(dark) <==> DarkAtResize(p, crtcs, accepts, from))
      && (Safe(sized) && SafeWhileAsked(sized, crtcs, true, accepts, from + n, n) <==>
            RevertIsSafe(p, crtcs, accepts, from, w, h))
      && forall i :: 0 <= i < n ==> last[crtcs[i]] == Reverted(p, crtcs, accepts, from, i)
  {
    hide Asked, SafeWhileAsked, RestoreIsSafe, Safe, AllOff, DarkAtResize, Inside, Reverted;
    var n := |crtcs|;
    DarkIsSafe(p, crtcs, accepts, from, n);
    AskedAt(p.live, crtcs, false, accepts, from, n);
    var dark := p.(live := Asked(p.live, crtcs, false, accepts, from, n));
    var sized := dark.(width := w, height := h);
    RevertedAt(p, crtcs, accepts, from);
    AllOrNot(p, dark, crtcs, accepts, from, w, h);
    if Safe(sized) { RestoringIsSafe(sized, crtcs, accepts, from + n, n); }
  }

  lemma RevertedAt(p: Picture, crtcs: seq<Crtc>, accepts: nat -> bool, from: nat)
    requires DistinctCrtcs(crtcs) && p.live.Keys == (set c | c in crtcs)
    ensures var n := |crtcs|;
      var last := Asked(Asked(p.live, crtcs, false, accepts, from, n), crtcs, true, accepts, from + n, n);
      last.Keys == p.live.Keys && forall i :: 0 <= i < n ==> last[crtcs[i]] == Reverted(p, crtcs, accepts, from, i)
  {
    hide Asked;
    AskedAt(p.live, crtcs, false, accepts, from, |crtcs|);
    AskedAt(Asked(p.live, crtcs, false, accepts, from, |crtcs|), crtcs, true, accepts, from + |crtcs|, |crtcs|);
  }

  lemma AllOrNot(p: Picture, dark: Picture, crtcs: seq<Crtc>, accepts: nat -> bool, from: nat, w: int, h: int)
    requires p.live.Keys == dark.live.Keys == (set c | c in crtcs)
    requires forall i :: 0 <= i < |crtcs| ==> dark.live[crtcs[i]] == if accepts(from + i) then OFF else p.live[crtcs[i]]
    ensures AllOff(dark) <==> DarkAtResize(p, crtcs, accepts, from)
    ensures Safe(dark.(width := w, height := h)) <==>
      forall i :: 0 <= i < |crtcs| ==> accepts(from + i) || Inside(p.live[crtcs[i]], w, h)
  {
    forall c | c in dark.live ensures exists i :: 0 <= i < |crtcs| && crtcs[i] == c {}
    if AllOff(dark) {
      forall i | 0 <= i < |crtcs| ensures p.live[crtcs[i]].mode.None? || accepts(from + i) {
        assert crtcs[i] in dark.live;
      }
    }
    if Safe(dark.(width := w, height := h)) {
      forall i | 0 <= i < |crtcs| ensures accepts(from + i) || Inside(p.live[crtcs[i]], w, h) {
        assert crtcs[i] in dark.live;
      }
    }
  }

  function Wanted(c: Crtc, restore: bool): CrtcConfig {
    if restore then c.reported else OFF
  }

  /** What the CRTCs show once the server has been asked, from request number from on, to restore or
      disable the first n. */
  function Asked(live: map<Crtc, CrtcConfig>, crtcs: seq<Crtc>, restore: bool, accepts: nat -> bool, from: nat, n: nat)
    : map<Crtc, CrtcConfig>
    requires n <= |crtcs|
  {
    if n == 0 then live
    else
      var before := Asked(live, crtcs, restore, accepts, from, n - 1);
      if accepts(from + n - 1) then before[crtcs[n - 1] := Wanted(crtcs[n - 1], restore)] else before
  }

  /** The server is safe after each of these n requests. */
  ghost predicate SafeWhileAsked(p: Picture, crtcs: seq<Crtc>, restore: bool, accepts: nat -> bool, from: nat, n: nat)
    requires n <= |crtcs|
  {
    forall k :: 0 < k <= n ==> Safe(p.(live := Asked(p.live, crtcs, restore, accepts, from, k)))
  }

  lemma AskedStep(p: Picture, crtcs: seq<Crtc>, restore: bool, accepts: nat -> bool, from: nat, n: nat)
    requires n < |crtcs|
    ensures var m := Asked(p.live, crtcs, restore, accepts, from, n);
      && Asked(p.live, crtcs, restore, accepts, from, n + 1) ==
           (if accepts(from + n) then m[crtcs[n] := Wanted(crtcs[n], restore)] else m)
      && (SafeWhileAsked(p, crtcs, restore, accepts, from, n + 1) <==>
            SafeWhileAsked(p, crtcs, restore, accepts, from, n)
            && Safe(p.(live := Asked(p.live, crtcs, restore, accepts, from, n + 1))))
  {
    hide Safe;
  }

  lemma AskedNothing(p: Picture, crtcs: seq<Crtc>, restore: bool, accepts: nat -> bool, from: nat)
    ensures Asked(p.live, crtcs, restore, accepts, from, 0) == p.live
    ensures SafeWhileAsked(p, crtcs, restore, accepts, from, 0)
  {
  }

  ghost predicate DistinctCrtcs(crtcs: seq<Crtc>) {
    forall i, j :: 0 <= i < j < |crtcs| ==> crtcs[i] != crtcs[j]
  }

  lemma {:induction false} AskedAt(live: map<Crtc, CrtcConfig>, crtcs: seq<Crtc>, restore: bool,
                                   accepts: nat -> bool, from: nat, n: nat)
    requires n <= |crtcs| && DistinctCrtcs(crtcs) && forall i :: 0 <= i < |crtcs| ==> crtcs[i] in live
    ensures Asked(live, crtcs, restore, accepts, from, n).Keys == live.Keys
    ensures forall i :: 0 <= i < |crtcs| ==>
      Asked(live, crtcs, restore, accepts, from, n)[crtcs[i]] ==
        (if i < n && accepts(from + i) then Wanted(crtcs[i], restore) else live[crtcs[i]])
  {
    hide Wanted;
    if n > 0 {
      AskedAt(live, crtcs, restore, accepts, from, n - 1);
      var before, m := Asked(live, crtcs, restore, accepts, from, n - 1), Asked(live, crtcs, restore, accepts, from, n);
      assert m.Keys == before.Keys;
      forall i | 0 <= i < |crtcs|
        ensures m[crtcs[i]] == if i < n && accepts(from + i) then Wanted(crtcs[i], restore) else live[crtcs[i]]
      {
        if i != n - 1 { assert crtcs[i] != crtcs[n - 1]; }
      }
    }
  }

  /** Going dark never makes a safe server unsafe. */
  lemma DarkIsSafe(p: Picture, crtcs: seq<Crtc>, accepts: nat -> bool, from: nat, n: nat)
    requires n <= |crtcs| && DistinctCrtcs(crtcs) && p.live.Keys == (set c | c in crtcs) && Safe(p)
    ensures SafeWhileAsked(p, crtcs, false, accepts, from, n)
    ensures Safe(p.(live := Asked(p.live, crtcs, false, accepts, from, n)))
  {
    forall k: nat | k <= n ensures Safe(p.(live := Asked(p.live, crtcs, false, accepts, from, k))) {
      AskedAt(p.live, crtcs, false, accepts, from, k);
      hide Asked;
      var m := Asked(p.live, crtcs, false, accepts, from, k);
      forall c | c in m ensures Inside(m[c], p.width, p.height) {
        var i :| 0 <= i < |crtcs| && crtcs[i] == c;
        assert m[crtcs[i]] == if i < k && accepts(from + i) then OFF else p.live[c];
      }
    }
  }

  /** Restoring keeps a safe server safe exactly when every configuration it accepts fits. */
  lemma RestoringIsSafe(p: Picture, crtcs: seq<Crtc>, accepts: nat -> bool, from: nat, n: nat)
    requires n <= |crtcs| && DistinctCrtcs(crtcs) && p.live.Keys == (set c | c in crtcs) && Safe(p)
    ensures SafeWhileAsked(p, crtcs, true, accepts, from, n) <==>
      RestoreIsSafe(crtcs, accepts, from, p.width, p.height, n)
  {
    forall k: nat | k <= n && RestoreIsSafe(crtcs, accepts, from, p.width, p.height, k)
      ensures Safe(p.(live := Asked(p.live, crtcs, true, accepts, from, k)))
    {
      AskedAt(p.live, crtcs, true, accepts, from, k);
      hide Asked;
      var m := Asked(p.live, crtcs, true, accepts, from, k);
      forall c | c in m ensures Inside(m[c], p.width, p.height) {
        var i :| 0 <= i < |crtcs| && crtcs[i] == c;
        assert m[crtcs[i]] == if i < k && accepts(from + i) then c.reported else p.live[c];
      }
    }
    if SafeWhileAsked(p, crtcs, true, accepts, from, n) {
      forall i: nat | i < n && accepts(from + i) ensures Inside(crtcs[i].reported, p.width, p.height) {
        AskedAt(p.live, crtcs, true, accepts, from, i + 1);
        hide Asked;
        assert Safe(p.(live := Asked(p.live, crtcs, true, accepts, from, i + 1)));
        assert crtcs[i] in crtcs;
      }
    }
  }

  method DisableAll(crtcs: seq<Crtc>, server: Server)
    requires Drives(server, crtcs)
    modifies server
    ensures server.served == old(server.served) + |crtcs| && server.resizedOnlyDark == old(server.resizedOnlyDark)
    ensures server.now ==
      old(server.now).(live := Asked(old(server.now).live, crtcs, false, server.accepts, old(server.served), |crtcs|))
    ensures server.alwaysSafe ==
      (old(server.alwaysSafe) && SafeWhileAsked(old(server.now), crtcs, false, server.accepts, old(server.served), |crtcs|))
  {
    hide Safe, Asked, SafeWhileAsked;
    AskedNothing(server.now, crtcs, false, server.accepts, server.served);
    for i := 0 to |crtcs|
      invariant server.served == old(server.served) + i && server.resizedOnlyDark == old(server.resizedOnlyDark)
      invariant server.now ==
        old(server.now).(live := Asked(old(server.now).live, crtcs, false, server.accepts, old(server.served), i))
      invariant server.alwaysSafe ==
        (old(server.alwaysSafe) && SafeWhileAsked(old(server.now), crtcs, false, server.accepts, old(server.served), i))
    {
      AskedAt(old(server.now).live, crtcs, false, server.accepts, old(server.served), i);
      AskedStep(old(server.now), crtcs, false, server.accepts, old(server.served), i);
      var _ := server.SetCrtcConfig(crtcs[i], OFF);
    }
  }

  method RestoreAll(crtcs: seq<Crtc>, server: Server)
    requires Drives(server, crtcs)
    modifies server
    ensures server.served == old(server.served) + |crtcs| && server.resizedOnlyDark == old(server.resizedOnlyDark)
    ensures server.now ==
      old(server.now).(live := Asked(old(server.now).live, crtcs, true, server.accepts, old(server.served), |crtcs|))
    ensures server.alwaysSafe ==
      (old(server.alwaysSafe)
       && SafeWhileAsked(old(server.now), crtcs, true, server.accepts, old(server.served), |crtcs|))
  {
    hide Safe, Asked, SafeWhileAsked;
    AskedNothing(server.now, crtcs, true, server.accepts, server.served);
    for i := 0 to |crtcs|
      invariant server.served == old(server.served) + i && server.resizedOnlyDark == old(server.resizedOnlyDark)
      invariant server.now ==
        old(server.now).(live := Asked(old(server.now).live, crtcs, true, server.accepts, old(server.served), i))
      invariant server.alwaysSafe ==
        (old(server.alwaysSafe) && SafeWhileAsked(old(server.now), crtcs, true, server.accepts, old(server.served), i))
    {
      AskedAt(old(server.now).live, crtcs, true, server.accepts, old(server.served), i);
      AskedStep(old(server.now), crtcs, true, server.accepts, old(server.served), i);
      var _ := server.SetCrtcConfig(crtcs[i], crtcs[i].reported);
    }
  }

  /** The mode table has at most this one mode under its id. */
  ghost predicate KnownMode(modes: seq<Mode>, mode: Option<Mode>) {
    mode.Some? ==> forall m :: m in modes && m.id == mode.value.id ==> m == mode.value
  }

  method FindMode(modes: seq<Mode>, id: int) returns (m: Option<Mode>)
    ensures m.Some? ==> m.value in modes && m.value.id == id
    ensures m.None? ==> forall k :: k in modes ==> k.id != id
  {
    for i := 0 to |modes|
      invariant forall k :: k in modes[..i] ==> k.id != id
    {
      if modes[i].id == id { return Some(modes[i]); }
    }
    assert modes[..|modes|] == modes;
    return None;
  }

  /** Every CRTC shows what it was told to; one without a mode is off. */
  ghost predicate Reached(server: Server, crtcs: seq<Crtc>)
    requires Drives(server, crtcs)
    reads server, crtcs
  {
    forall c :: c in crtcs ==> if c.mode.Some? then server.now.live[c] == Target(c) else server.now.live[c].mode.None?
  }

  /** What c shows fits the size to its right and below. */
  predicate FitsIn(cfg: CrtcConfig, w: int, h: int) {
    && cfg.mode.Some?
    && cfg.x + ModeWidth(cfg.mode.value, cfg.rotation) <= w
    && cfg.y + ModeHeight(cfg.mode.value, cfg.rotation) <= h
  }

  /** Whether c has to be turned off for the new size: it is on, and is to be disabled or does not fit. */
  predicate NeedsOff(c: Crtc, w: int, h: int)
    reads c`mode
  {
    c.reported.mode.Some? && !(c.mode.Some? && FitsIn(c.reported, w, h))
  }

  /** What c shows after that. */
  function Dimmed(c: Crtc, w: int, h: int): CrtcConfig
    reads c`mode
  {
    if NeedsOff(c, w, h) then OFF else c.reported
  }

  /** The old mode of a CRTC that is on and to stay on has to be in the table. */
  predicate OldModeKnown(c: Crtc, modes: seq<Mode>)
    reads c`mode
  {
    c.reported.mode.Some? && c.mode.Some? ==> c.reported.mode.value in modes
  }

  /** How many of the first n CRTCs are turned off. */
  function Offs(crtcs: seq<Crtc>, n: nat, w: int, h: int): nat
    requires n <= |crtcs|
    reads (set c | c in crtcs)`mode
  {
    if n == 0 then 0 else |set i | 0 <= i < n && NeedsOff(crtcs[i], w, h)|
  }

  /** The first loop of apply gets past CRTC number i. */
  predicate OffWorks(crtcs: seq<Crtc>, modes: seq<Mode>, accepts: nat -> bool, from: nat, w: int, h: int, i: nat)
    requires i < |crtcs|
    reads (set c | c in crtcs)`mode
  {
    OldModeKnown(crtcs[i], modes) && (NeedsOff(crtcs[i], w, h) ==> accepts(from + Offs(crtcs, i, w, h)))
  }

  /** The first CRTC, from i on, at which that loop panics. */
  function OffStopFrom(crtcs: seq<Crtc>, modes: seq<Mode>, accepts: nat -> bool, from: nat, w: int, h: int, i: nat)
    : (stop: nat)
    requires i <= |crtcs|
    reads (set c | c in crtcs)`mode
    ensures i <= stop <= |crtcs|
    decreases |crtcs| - i
  {
    if i == |crtcs| || !OffWorks(crtcs, modes, accepts, from, w, h, i) then i
    else OffStopFrom(crtcs, modes, accepts, from, w, h, i + 1)
  }

  function OffStop(crtcs: seq<Crtc>, modes: seq<Mode>, accepts: nat -> bool, from: nat, w: int, h: int): (stop: nat)
    reads (set c | c in crtcs)`mode
    ensures stop <= |crtcs|
  {
    OffStopFrom(crtcs, modes, accepts, from, w, h, 0)
  }

  /** How many of the first n CRTCs are set. */
  function Ons(crtcs: seq<Crtc>, n: nat): nat
    requires n <= |crtcs|
    reads (set c | c in crtcs)`mode
  {
    if n == 0 then 0 else |set i | 0 <= i < n && crtcs[i].mode.Some?|
  }

  /** The first CRTC, from i on, at which the last loop of apply panics. */
  function OnStopFrom(crtcs: seq<Crtc>, memory: Crtc -> bool, accepts: nat -> bool, from: nat, i: nat): (stop: nat)
    requires i <= |crtcs|
    reads (set c | c in crtcs)`mode
    ensures i <= stop <= |crtcs|
    decreases |crtcs| - i
  {
    if i == |crtcs| || (crtcs[i].mode.Some? && !(memory(crtcs[i]) && accepts(from + Ons(crtcs, i)))) then i
    else OnStopFrom(crtcs, memory, accepts, from, i + 1)
  }

  function OnStop(crtcs: seq<Crtc>, memory: Crtc -> bool, accepts: nat -> bool, from: nat): (stop: nat)
    reads (set c | c in crtcs)`mode
    ensures stop <= |crtcs|
  {
    OnStopFrom(crtcs, memory, accepts, from, 0)
  }

  /** apply succeeds: neither loop panics. */
  predicate ApplyWorks(crtcs: seq<Crtc>, modes: seq<Mode>, memory: Crtc -> bool, accepts: nat -> bool, from: nat, w: int, h: int)
    reads (set c | c in crtcs)`mode
  {
    && OffStop(crtcs, modes, accepts, from, w, h) == |crtcs|
    && OnStop(crtcs, memory, accepts, from + Offs(crtcs, |crtcs|, w, h)) == |crtcs|
  }

  /** A server that accepts everything, and a mode table that knows the old modes, suffice. */
  lemma WillingServer(crtcs: seq<Crtc>, modes: seq<Mode>, memory: Crtc -> bool, accepts: nat -> bool, from: nat, w: int, h: int)
    requires (forall n: nat :: n >= from ==> accepts(n)) && forall c :: c in crtcs ==> OldModeKnown(c, modes) && memory(c)
    ensures ApplyWorks(crtcs, modes, memory, accepts, from, w, h)
  {
    WillingOff(crtcs, modes, accepts, from, w, h, 0);
    WillingOn(crtcs, memory, accepts, from + Offs(crtcs, |crtcs|, w, h), 0);
  }

  lemma {:induction false} WillingOff(crtcs: seq<Crtc>, modes: seq<Mode>, accepts: nat -> bool, from: nat, w: int, h: int, i: nat)
    requires i <= |crtcs|
    requires (forall n: nat :: n >= from ==> accepts(n)) && forall c :: c in crtcs ==> OldModeKnown(c, modes)
    ensures OffStopFrom(crtcs, modes, accepts, from, w, h, i) == |crtcs|
    decreases |crtcs| - i
  {
    if i < |crtcs| { WillingOff(crtcs, modes, accepts, from, w, h, i + 1); }
  }

  lemma {:induction false} WillingOn(crtcs: seq<Crtc>, memory: Crtc -> bool, accepts: nat -> bool, from: nat, i: nat)
    requires i <= |crtcs| && (forall n: nat :: n >= from ==> accepts(n)) && forall c :: c in crtcs ==> memory(c)
    ensures OnStopFrom(crtcs, memory, accepts, from, i) == |crtcs|
    decreases |crtcs| - i
  {
    if i < |crtcs| { WillingOn(crtcs, memory, accepts, from, i + 1); }
  }

  /** Whether the mode c has now is known, and then whether c as it is now fits into w by h. */
  method OldFits(c: Crtc, modes: seq<Mode>, w: int, h: int) returns (known: bool, fits: bool)
    requires c.reported.mode.Some? && KnownMode(modes, c.reported.mode)
    ensures known <==> c.reported.mode.value in modes
    ensures known ==> (fits <==> FitsIn(c.reported, w, h))
  {
    var info := c.reported;
    var oldMode := FindMode(modes, info.mode.value.id);
    if oldMode.None? { return false, false; }
    known := true;
    fits := info.x + ModeWidth(oldMode.value, info.rotation) <= w
         && info.y + ModeHeight(oldMode.value, info.rotation) <= h;
  }

  /** The first loop of apply, for one CRTC. */
  method TurnOffOne(c: Crtc, modes: seq<Mode>, w: int, h: int, server: Server) returns (ok: bool)
    requires c in server.now.live && server.now.live[c] == c.reported && Safe(server.now)
    requires KnownMode(modes, c.reported.mode)
    modifies server
    ensures ok <==> OldModeKnown(c, modes) && (NeedsOff(c, w, h) ==> server.accepts(old(server.served)))
    ensures server.now == if ok then old(server.now).(live := old(server.now).live[c := Dimmed(c, w, h)]) else old(server.now)
    ensures ok && c.reported.mode.Some? ==>
      if c.mode.Some? && Inside(c.reported, w, h) then server.now.live[c] == c.reported
      else server.now.live[c] == CrtcConfig(0, 0, None, Rotate0, [])
    ensures server.served == old(server.served) + if OldModeKnown(c, modes) && NeedsOff(c, w, h) then 1 else 0
    ensures server.alwaysSafe == old(server.alwaysSafe) && Safe(server.now)
    ensures server.resizedOnlyDark == old(server.resizedOnlyDark)
  {
    var fits := c.reported.mode.None?;
    if !fits && c.mode.Some? {
      var known;
      known, fits := OldFits(c, modes, w, h);
      if !known { return false; }
    }
    ok := true;
    if !fits { ok := server.SetCrtcConfig(c, OFF); }
    assert fits ==> server.now.live == old(server.now).live[c := c.reported];
  }

  /** The first n CRTCs have been turned off if need be, the others show what they did. */
  ghost predicate OffTo(live: map<Crtc, CrtcConfig>, crtcs: seq<Crtc>, n: nat, w: int, h: int)
    reads (set c | c in crtcs)`mode
  {
    forall i :: 0 <= i < |crtcs| ==>
      crtcs[i] in live && live[crtcs[i]] == (if i < n then Dimmed(crtcs[i], w, h) else crtcs[i].reported)
  }

  lemma OffToStep(p: Picture, q: Picture, crtcs: seq<Crtc>, n: nat, w: int, h: int)
    requires n < |crtcs| && DistinctCrtcs(crtcs) && OffTo(p.live, crtcs, n, w, h)
    requires q.live == p.live[crtcs[n] := Dimmed(crtcs[n], w, h)]
    ensures OffTo(q.live, crtcs, n + 1, w, h)
  {
    hide Dimmed;
  }

  /** All have been turned off if need be, and those of the first n that are to be on have been set. */
  ghost predicate OnTo(live: map<Crtc, CrtcConfig>, crtcs: seq<Crtc>, n: nat, w: int, h: int)
    reads crtcs
  {
    forall i :: 0 <= i < |crtcs| ==>
      crtcs[i] in live && live[crtcs[i]] ==
        (if i < n && crtcs[i].mode.Some? then Target(crtcs[i]) else Dimmed(crtcs[i], w, h))
  }

  lemma OnToStep(p: Picture, q: Picture, crtcs: seq<Crtc>, n: nat, w: int, h: int)
    requires n < |crtcs| && DistinctCrtcs(crtcs) && OnTo(p.live, crtcs, n, w, h)
    requires q.live == if crtcs[n].mode.Some? then p.live[crtcs[n] := Target(crtcs[n])] else p.live
    ensures OnTo(q.live, crtcs, n + 1, w, h)
  {
    hide Dimmed, Target;
  }

  lemma ToStart(p: Picture, crtcs: seq<Crtc>, w: int, h: int)
    requires p.live.Keys == set c | c in crtcs
    ensures (forall c :: c in crtcs ==> p.live[c] == c.reported) ==> OffTo(p.live, crtcs, 0, w, h)
    ensures OffTo(p.live, crtcs, |crtcs|, w, h) ==> OnTo(p.live, crtcs, 0, w, h)
    ensures forall n, c :: c in crtcs && OffTo(p.live, crtcs, n, w, h) ==> c in p.live
    ensures forall i, n :: 0 <= n <= i < |crtcs| && OffTo(p.live, crtcs, n, w, h) ==> p.live[crtcs[i]] == crtcs[i].reported
  {
  }

  lemma OffStep(crtcs: seq<Crtc>, modes: seq<Mode>, accepts: nat -> bool, from: nat, w: int, h: int, i: nat)
    requires i < |crtcs|
    ensures Offs(crtcs, i + 1, w, h) == Offs(crtcs, i, w, h) + if NeedsOff(crtcs[i], w, h) then 1 else 0
    ensures OffStopFrom(crtcs, modes, accepts, from, w, h, i) ==
      if OffWorks(crtcs, modes, accepts, from, w, h, i) then OffStopFrom(crtcs, modes, accepts, from, w, h, i + 1) else i
  {
    var off := set j | 0 <= j < i && NeedsOff(crtcs[j], w, h);
    assert i == 0 ==> off == {};
    assert (set j | 0 <= j < i + 1 && NeedsOff(crtcs[j], w, h)) == if NeedsOff(crtcs[i], w, h) then off + {i} else off;
  }

  lemma OffEnds(crtcs: seq<Crtc>, modes: seq<Mode>, accepts: nat -> bool, from: nat, w: int, h: int)
    ensures OffStop(crtcs, modes, accepts, from, w, h) == OffStopFrom(crtcs, modes, accepts, from, w, h, 0)
    ensures Offs(crtcs, 0, w, h) == 0 && OffStopFrom(crtcs, modes, accepts, from, w, h, |crtcs|) == |crtcs|
  {
  }

  lemma OnEnds(crtcs: seq<Crtc>, memory: Crtc -> bool, accepts: nat -> bool, from: nat)
    ensures OnStop(crtcs, memory, accepts, from) == OnStopFrom(crtcs, memory, accepts, from, 0)
    ensures Ons(crtcs, 0) == 0 && OnStopFrom(crtcs, memory, accepts, from, |crtcs|) == |crtcs|
  {
  }

  lemma OnStep(crtcs: seq<Crtc>, memory: Crtc -> bool, accepts: nat -> bool, from: nat, i: nat)
    requires i < |crtcs|
    ensures Ons(crtcs, i + 1) == Ons(crtcs, i) + if crtcs[i].mode.Some? then 1 else 0
    ensures OnStopFrom(crtcs, memory, accepts, from, i) ==
      if crtcs[i].mode.Some? && !(memory(crtcs[i]) && accepts(from + Ons(crtcs, i))) then i
      else OnStopFrom(crtcs, memory, accepts, from, i + 1)
  {
    var on := set j | 0 <= j < i && crtcs[j].mode.Some?;
    assert i == 0 ==> on == {};
    assert (set j | 0 <= j < i + 1 && crtcs[j].mode.Some?) == if crtcs[i].mode.Some? then on + {i} else on;
  }

  /** The first loop of apply. It gets exactly as far as OffStop says. */
  method TurnOff(crtcs: seq<Crtc>, modes: seq<Mode>, w: int, h: int, server: Server) returns (ok: bool, ghost stop: nat)
    requires Drives(server, crtcs) && Safe(server.now)
    requires forall c :: c in crtcs ==> server.now.live[c] == c.reported && KnownMode(modes, c.reported.mode)
    modifies server
    ensures Drives(server, crtcs) && Safe(server.now)
    ensures server.alwaysSafe == old(server.alwaysSafe) && server.resizedOnlyDark == old(server.resizedOnlyDark)
    ensures server.now.width == old(server.now.width) && server.now.height == old(server.now.height)
    ensures stop == OffStop(crtcs, modes, server.accepts, old(server.served), w, h) && ok == (stop == |crtcs|)
    ensures OffTo(server.now.live, crtcs, stop, w, h)
    ensures server.served == old(server.served) + Offs(crtcs, stop, w, h) + Refused(crtcs, modes, stop)
  {
    hide Safe, Inside, KnownMode, Dimmed, NeedsOff, OldModeKnown, Offs, OffStop, OffStopFrom, OffTo, DistinctCrtcs;
    ghost var from := server.served;
    OffEnds(crtcs, modes, server.accepts, from, w, h);
    ToStart(server.now, crtcs, w, h);
    for i := 0 to |crtcs|
      invariant Drives(server, crtcs) && Safe(server.now)
      invariant server.alwaysSafe == old(server.alwaysSafe) && server.resizedOnlyDark == old(server.resizedOnlyDark)
      invariant server.now.width == old(server.now.width) && server.now.height == old(server.now.height)
      invariant OffTo(server.now.live, crtcs, i, w, h) && server.served == from + Offs(crtcs, i, w, h)
      invariant OffStop(crtcs, modes, server.accepts, from, w, h) == OffStopFrom(crtcs, modes, server.accepts, from, w, h, i)
    {
      ghost var p := server.now;
      OffStep(crtcs, modes, server.accepts, from, w, h, i);
      ToStart(p, crtcs, w, h);
      ok := TurnOffOne(crtcs[i], modes, w, h, server);
      if !ok { return false, i; }
      OffToStep(p, server.now, crtcs, i, w, h);
    }
    return true, |crtcs|;
  }

  /** One request if the CRTC at which the loop stopped was asked and refused. */
  function Refused(crtcs: seq<Crtc>, modes: seq<Mode>, stop: nat): nat
    reads (set c | c in crtcs)`mode
  {
    if stop < |crtcs| && OldModeKnown(crtcs[stop], modes) then 1 else 0
  }

  /** The same in the last loop, where no request is made if the array cannot be had. */
  function RefusedOn(crtcs: seq<Crtc>, memory: Crtc -> bool, stop: nat): nat {
    if stop < |crtcs| && memory(crtcs[stop]) then 1 else 0
  }

  ghost predicate AllDimmed(crtcs: seq<Crtc>, w: int, h: int)
    reads (set c | c in crtcs)`mode
  {
    forall c :: c in crtcs ==> Dimmed(c, w, h).mode.None?
  }

  /** With the CRTCs so dimmed the screen may take the new size. */
  lemma DimmedIsSafe(server: Server, crtcs: seq<Crtc>, w: int, h: int, p: Picture)
    requires Drives(server, crtcs) && p == server.now.(width := w, height := h)
    requires OffTo(server.now.live, crtcs, |crtcs|, w, h)
    requires forall c :: c in crtcs && c.reported.mode.Some? ==> c.reported.x >= 0 && c.reported.y >= 0
    ensures Safe(p)
    ensures AllOff(server.now) <==> AllDimmed(crtcs, w, h)
    ensures forall c :: c in crtcs && c.reported.mode.Some? ==>
      (server.now.live[c].mode.None? <==> c.mode.None? || !Inside(c.reported, w, h))
  {
    forall c | c in crtcs ensures server.now.live[c] == Dimmed(c, w, h) {
      var i :| 0 <= i < |crtcs| && crtcs[i] == c;
      assert server.now.live[crtcs[i]] == Dimmed(crtcs[i], w, h);
    }
  }

  /** memory tells of each CRTC whether the array for its outputs can be had. */
  method CrtcApply(c: Crtc, memory: Crtc -> bool, server: Server) returns (ok: bool)
    requires c in server.now.live && Safe(server.now) && Inside(Target(c), server.now.width, server.now.height)
    modifies server
    ensures ok == (memory(c) && server.accepts(old(server.served)))
    ensures server.served == old(server.served) + if memory(c) then 1 else 0
    ensures Safe(server.now) && server.alwaysSafe == old(server.alwaysSafe)
    ensures server.resizedOnlyDark == old(server.resizedOnlyDark)
    ensures server.now == if ok then old(server.now).(live := old(server.now).live[c := Target(c)]) else old(server.now)
  {
    if !memory(c) { return false; }
    ok := server.SetCrtcConfig(c, Target(c));
  }

  /** The last loop of apply: set every CRTC that is to be on. It gets exactly as far as OnStop says. */
  method TurnOn(crtcs: seq<Crtc>, memory: Crtc -> bool, ghost w: int, ghost h: int, server: Server) returns (ok: bool, ghost stop: nat)
    requires Drives(server, crtcs) && Safe(server.now) && OffTo(server.now.live, crtcs, |crtcs|, w, h)
    requires forall c :: c in crtcs ==> Inside(Target(c), server.now.width, server.now.height)
    modifies server
    ensures Drives(server, crtcs) && Safe(server.now)
    ensures server.alwaysSafe == old(server.alwaysSafe) && server.resizedOnlyDark == old(server.resizedOnlyDark)
    ensures server.now.width == old(server.now.width) && server.now.height == old(server.now.height)
    ensures stop == OnStop(crtcs, memory, server.accepts, old(server.served)) && ok == (stop == |crtcs|)
    ensures OnTo(server.now.live, crtcs, stop, w, h)
    ensures server.served == old(server.served) + Ons(crtcs, stop) + RefusedOn(crtcs, memory, stop)
  {
    hide Safe, Inside, Dimmed, Ons, OnStop, OnStopFrom, Target, OnTo, OffTo, DistinctCrtcs;
    ghost var from := server.served;
    OnEnds(crtcs, memory, server.accepts, from);
    ToStart(server.now, crtcs, w, h);
    for i := 0 to |crtcs|
      invariant Drives(server, crtcs) && Safe(server.now)
      invariant server.alwaysSafe == old(server.alwaysSafe) && server.resizedOnlyDark == old(server.resizedOnlyDark)
      invariant server.now.width == old(server.now.width) && server.now.height == old(server.now.height)
      invariant OnTo(server.now.live, crtcs, i, w, h) && server.served == from + Ons(crtcs, i)
      invariant OnStop(crtcs, memory, server.accepts, from) == OnStopFrom(crtcs, memory, server.accepts, from, i)
    {
      ghost var p := server.now;
      OnStep(crtcs, memory, server.accepts, from, i);
      if crtcs[i].mode.Some? {
        var s := CrtcApply(crtcs[i], memory, server);
        if !s { return false, i; }
      }
      OnToStep(p, server.now, crtcs, i, w, h);
    }
    return true, |crtcs|;
  }

  /** Where apply stands when it panics: what the CRTCs show and how many requests have been made. */
  ghost predicate AtPanic(was: Picture, p: Picture, asked: nat, crtcs: seq<Crtc>, modes: seq<Mode>,
                          memory: Crtc -> bool, accepts: nat -> bool, from: nat, w: int, h: int)
    reads crtcs
  {
    && (forall i :: 0 <= i < |crtcs| ==> crtcs[i] in p.live)
    && var off := OffStop(crtcs, modes, accepts, from, w, h);
    if off < |crtcs| then
      && p.width == was.width && p.height == was.height && OffTo(p.live, crtcs, off, w, h)
      && asked == from + Offs(crtcs, off, w, h) + Refused(crtcs, modes, off)
    else
      var start := from + Offs(crtcs, |crtcs|, w, h);
      var on := OnStop(crtcs, memory, accepts, start);
      && p.width == w && p.height == h && OnTo(p.live, crtcs, on, w, h)
      && asked == start + Ons(crtcs, on) + RefusedOn(crtcs, memory, on)
  }

  /** apply. It succeeds exactly when ApplyWorks says, and every request up to success or panic leaves
      the server safe. After a panic everything is as revert leaves it, from the picture and the request
      number of the panic. */
  method Apply(crtcs: seq<Crtc>, modes: seq<Mode>, memory: Crtc -> bool, screen: Layout.Screen, server: Server,
               displayWidth: int, displayHeight: int)
    returns (ok: bool, ghost panic: Picture, ghost asked: nat, ghost dark: bool)
    requires Drives(server, crtcs) && Safe(server.now)
    requires forall c :: c in crtcs ==> server.now.live[c] == c.reported
    requires forall c :: c in crtcs ==> KnownMode(modes, c.reported.mode)
    requires forall c :: c in crtcs ==> Inside(Target(c), screen.fbWidth, screen.fbHeight)
    modifies server
    ensures Drives(server, crtcs)
    ensures ok <==> ApplyWorks(crtcs, modes, memory, server.accepts, old(server.served), screen.fbWidth, screen.fbHeight)
    ensures ok ==> server.alwaysSafe == old(server.alwaysSafe) && Reached(server, crtcs)
    ensures ok ==> server.now.width == screen.fbWidth && server.now.height == screen.fbHeight
    ensures ok ==>
      server.served == old(server.served) + Offs(crtcs, |crtcs|, screen.fbWidth, screen.fbHeight) + Ons(crtcs, |crtcs|)
    ensures !ok ==> AfterPanic(old(server.now), crtcs, modes, memory, old(server.served), screen.fbWidth, screen.fbHeight,
                               server, panic, asked, displayWidth, displayHeight)
    ensures !ok ==> (server.alwaysSafe <==>
      old(server.alwaysSafe) && RevertIsSafe(panic, crtcs, server.accepts, asked, displayWidth, displayHeight))
    ensures !ok ==> (server.resizedOnlyDark <==> dark && DarkAtResize(panic, crtcs, server.accepts, asked))
    ensures dark == (old(server.resizedOnlyDark)
      && (OffStop(crtcs, modes, server.accepts, old(server.served), screen.fbWidth, screen.fbHeight) < |crtcs|
          || AllDimmed(crtcs, screen.fbWidth, screen.fbHeight)))
  {
    hide ApplyWorks, Safe, Inside, Target, OffStop, OnStop, Offs, Ons, AtPanic, RevertIsSafe, DarkAtResize, Reverted,
      Reached, AllDimmed, DistinctCrtcs;
    ok := Attempt(crtcs, modes, memory, screen.fbWidth, screen.fbHeight, server);
    panic, asked, dark := server.now, server.served, server.resizedOnlyDark;
    if !ok { Revert(crtcs, server, displayWidth, displayHeight); }
  }

  /** A run in which the screen is resized under a CRTC that is on: a server that refuses to turn it off is
      asked again by revert, refuses again, and is then resized. It is safe only if the CRTC still fits. */
  method RefusedDisable(displayWidth: int, displayHeight: int) returns (ok: bool, ghost server: Server)
    ensures !ok && fresh(server) && server.served == 3
    ensures !server.resizedOnlyDark
    ensures server.alwaysSafe <==> displayWidth >= 100 && displayHeight >= 100
  {
    var m := Mode(1, 100, 100);
    var lit := CrtcConfig(0, 0, Some(m), Rotate0, [7]);
    var c := new Crtc(1, lit);
    var s := new Server(_ => false, Picture(100, 100, map[c := lit]));
    var screen := new Layout.Screen(1, 1, 100, 100);
    server := s;
    ghost var panic, asked, dark;
    ghost var was := s.now;
    OneLit(c, m, s);
    hide ApplyWorks, OffStop, OnStop, AtPanic, RevertIsSafe, DarkAtResize, Reverted, Target, Drives, Safe, KnownMode, Inside;
    ok, panic, asked, dark := Apply([c], [m], _ => true, screen, s, displayWidth, displayHeight);
    NeverOff(c, [m], _ => true, s.accepts, was, panic, asked);
    RefusedRevert(c, panic, s.accepts, asked, lit, displayWidth, displayHeight);
  }

  lemma OneLit(c: Crtc, m: Mode, server: Server)
    requires m.width == m.height == 100 && c.mode.None? && c.reported == CrtcConfig(0, 0, Some(m), Rotate0, [7])
    requires server.now == Picture(100, 100, map[c := c.reported])
    ensures Drives(server, [c]) && Safe(server.now) && KnownMode([m], c.reported.mode) && Inside(Target(c), 0, 0)
    ensures forall w, h :: Inside(c.reported, w, h) <==> w >= 100 && h >= 100
  {
    assert [c][0] == c;
  }

  /** One CRTC, on and to be disabled, and a server that refuses everything: apply panics at once. */
  lemma NeverOff(c: Crtc, modes: seq<Mode>, memory: Crtc -> bool, accepts: nat -> bool, was: Picture, p: Picture, asked: nat)
    requires c.mode.None? && c.reported.mode.Some? && (forall n: nat :: !accepts(n))
    ensures OffStop([c], modes, accepts, 0, 0, 0) == 0 && !ApplyWorks([c], modes, memory, accepts, 0, 0, 0)
    ensures AtPanic(was, p, asked, [c], modes, memory, accepts, 0, 0, 0) ==> asked == 1 && c in p.live && p.live[c] == c.reported
  {
    assert [c][0] == c;
    assert !OffWorks([c], modes, accepts, 0, 0, 0, 0);
    if AtPanic(was, p, asked, [c], modes, memory, accepts, 0, 0, 0) { assert p.live[[c][0]] == c.reported; }
  }

  lemma RefusedRevert(c: Crtc, p: Picture, accepts: nat -> bool, from: nat, lit: CrtcConfig, w: int, h: int)
    requires c in p.live && p.live[c] == lit && lit.mode.Some? && (forall n: nat :: !accepts(n))
    ensures !DarkAtResize(p, [c], accepts, from)
    ensures RevertIsSafe(p, [c], accepts, from, w, h) <==> Inside(lit, w, h)
  {
    assert [c][0] == c;
  }

  /** apply as far as it gets without a panic, or up to it. */
  method Attempt(crtcs: seq<Crtc>, modes: seq<Mode>, memory: Crtc -> bool, w: int, h: int, server: Server) returns (ok: bool)
    requires Drives(server, crtcs) && Safe(server.now)
    requires forall c :: c in crtcs ==> server.now.live[c] == c.reported
    requires forall c :: c in crtcs ==> KnownMode(modes, c.reported.mode) && Inside(Target(c), w, h)
    modifies server
    ensures Drives(server, crtcs) && Safe(server.now) && server.alwaysSafe == old(server.alwaysSafe)
    ensures ok <==> ApplyWorks(crtcs, modes, memory, server.accepts, old(server.served), w, h)
    ensures ok ==> Reached(server, crtcs) && server.now.width == w && server.now.height == h
    ensures ok ==> server.served == old(server.served) + Offs(crtcs, |crtcs|, w, h) + Ons(crtcs, |crtcs|)
    ensures !ok ==> AtPanic(old(server.now), server.now, server.served, crtcs, modes, memory, server.accepts, old(server.served), w, h)
    ensures server.resizedOnlyDark == (old(server.resizedOnlyDark)
      && (OffStop(crtcs, modes, server.accepts, old(server.served), w, h) < |crtcs| || AllDimmed(crtcs, w, h)))
  {
    hide Safe, Inside, Target, KnownMode, OffStop, OnStop, Offs, Ons, OffTo, OnTo, OldModeKnown, Reached, AllDimmed,
      AllOff, DistinctCrtcs;
    PositionsHold(crtcs, server);
    ghost var stop;
    ok, stop := TurnOff(crtcs, modes, w, h, server);
    if ok {
      DimmedIsSafe(server, crtcs, w, h, server.now.(width := w, height := h));
      server.SetScreenSize(w, h);
      ok, stop := TurnOn(crtcs, memory, w, h, server);
      if ok { AllOn(server, crtcs, w, h); }
    }
  }

  /** The server after a panic and the revert that follows. */
  ghost predicate AfterPanic(was: Picture, crtcs: seq<Crtc>, modes: seq<Mode>, memory: Crtc -> bool, from: nat, w: int, h: int,
                             server: Server, panic: Picture, asked: nat, displayWidth: int, displayHeight: int)
    reads crtcs, server
  {
    && AtPanic(was, panic, asked, crtcs, modes, memory, server.accepts, from, w, h)
    && Drives(server, crtcs) && server.served == asked + 2 * |crtcs|
    && (forall c :: c in crtcs ==> c in panic.live)
    && server.now.width == displayWidth && server.now.height == displayHeight
    && forall i :: 0 <= i < |crtcs| ==> server.now.live[crtcs[i]] == Reverted(panic, crtcs, server.accepts, asked, i)
  }

  lemma PositionsHold(crtcs: seq<Crtc>, server: Server)
    requires Drives(server, crtcs) && Safe(server.now)
    requires forall c :: c in crtcs ==> server.now.live[c] == c.reported
    ensures forall c :: c in crtcs && c.reported.mode.Some? ==> c.reported.x >= 0 && c.reported.y >= 0
  {
    forall c | c in crtcs && c.reported.mode.Some? ensures c.reported.x >= 0 && c.reported.y >= 0 {
      assert Inside(server.now.live[c], server.now.width, server.now.height);
    }
  }

  lemma AllOn(server: Server, crtcs: seq<Crtc>, w: int, h: int)
    requires Drives(server, crtcs) && OnTo(server.now.live, crtcs, |crtcs|, w, h)
    ensures Reached(server, crtcs)
  {
    forall c | c in crtcs
      ensures if c.mode.Some? then server.now.live[c] == Target(c) else server.now.live[c].mode.None?
    {
      var i :| 0 <= i < |crtcs| && crtcs[i] == c;
      assert server.now.live[crtcs[i]] == if c.mode.Some? then Target(c) else Dimmed(c, w, h);
    }
  }

  // ---------- do_switch, from set_positions on ----------

  datatype Outcome = ScreenTooBig | NoCrtc | Applied | Panicked

  /** Every enabled output of con shows inside the screen. */
  ghost predicate Encloses(con: seq<Output>, w: int, h: int)
    reads (set o | o in con)`mode, (set o | o in con)`x, (set o | o in con)`y, (set o | o in con)`rotation
  {
    forall o :: o in con && o.mode.Some? ==>
      && 0 <= o.x && o.x + ModeWidth(o.mode.value, o.rotation) <= w
      && 0 <= o.y && o.y + ModeHeight(o.mode.value, o.rotation) <= h
  }

  lemma TargetsFit(con: seq<Output>, c: Crtc, w: int, h: int)
    requires Encloses(con, w, h) && SetUpFor(c, Driven(con, c))
    ensures Inside(Target(c), w, h)
  {
    DrivenMembers(con, c);
    if Driven(con, c) != [] { assert Driven(con, c)[0] in Driven(con, c); }
  }

  /** Where a switch puts every output at first: at the remembered position, or at the origin. */
  datatype Origin = Origin(x: int, y: int, rotation: Option<Rotation>)

  /** The first loop of do_switch: no relations, and every output at one place. */
  method StartOver(con: seq<Output>, origin: Origin)
    modifies (set o | o in con)`relation, (set o | o in con)`relativeTo
    modifies (set o | o in con)`x, (set o | o in con)`y, (set o | o in con)`rotation
    ensures forall o :: o in con ==> o.relation == SameAs && o.relativeTo == null && o.x == origin.x && o.y == origin.y
    ensures forall o :: o in con ==> o.rotation == origin.rotation.GetOr(old(o.rotation))
  {
    for i := 0 to |con|
      invariant forall o :: o in con[..i] ==> o.relation == SameAs && o.relativeTo == null && o.x == origin.x && o.y == origin.y
      invariant forall o :: o in con ==>
        o.rotation == if o in con[..i] then origin.rotation.GetOr(old(o.rotation)) else old(o.rotation)
    {
      var o := con[i];
      o.relation, o.relativeTo, o.x, o.y := SameAs, null, origin.x, origin.y;
      if origin.rotation.Some? { o.rotation := origin.rotation.value; }
    }
    assert con[..|con|] == con;
  }

  /** Side by side: of two outputs the second goes to the right of the first, or in state 5 the first to
      the right of the second. What set_positions needs always holds of that; there is no cycle. */
  method Wire(con: seq<Output>, start: nat)
    requires |con| == 2 && con[0] != con[1] && 4 <= start <= 5
    requires forall o :: o in con ==> o.relativeTo == null
    modifies (set o | o in con)`relation, (set o | o in con)`relativeTo
    modifies (set o | o in con)`relationChanged, (set o | o in con)`placed
    ensures Layout.WellLinked(con) && Layout.Acyclic(Layout.WaitsFor(con), Layout.PlacedSet(con))
    ensures forall o :: o in con ==> !o.placed && (o.relativeTo != null ==> o.relativeTo in con)
    ensures var right, left := con[if start == 4 then 1 else 0], con[if start == 4 then 0 else 1];
      right.relativeTo == left && right.relation == RightOf && right.relationChanged && !left.relationChanged
  {
    var right, left := con[if start == 4 then 1 else 0], con[if start == 4 then 0 else 1];
    right.relativeTo, right.relation := left, RightOf;
    right.relationChanged, right.placed := true, false;
    left.relationChanged, left.placed := false, false;
    assert forall o :: o in con <==> o == con[0] || o == con[1];
    assert Layout.WaitsFor(con) == map[];
  }

  ghost predicate Sized(o: Output)
    reads o`mode, o`rotation
  {
    o.mode.Some? && o.mode.value.width >= 0 && o.mode.value.height >= 0 && o.rotation != RotateOther
  }

  /** The outputs are where the state of the switch wants them. */
  ghost predicate Arranged(con: seq<Output>, start: nat, origin: Origin)
    reads (set o | o in con)`mode, (set o | o in con)`x, (set o | o in con)`y, (set o | o in con)`rotation
  {
    && (origin.rotation.Some? ==> forall o :: o in con ==> o.rotation == origin.rotation.value)
    && if |con| == 2 && start >= 4 then
         var right, left := con[if start == 4 then 1 else 0], con[if start == 4 then 0 else 1];
         right.mode.Some? && left.mode.Some? ==>
           && right.y == left.y
           && (left.rotation in {Rotate0, Rotate180} ==> right.x == left.x + left.mode.value.width)
           && (left.rotation in {Rotate90, Rotate270} ==> right.x == left.x + left.mode.value.height)
           && (left.rotation.RotateOther? ==> right.x == left.x)
           && (origin.x <= 32768 && origin.y <= 32768 && Sized(left) ==> left.x == 0 && left.y == 0)
       else forall o :: o in con ==> o.x == origin.x && o.y == origin.y
  }

  ghost predicate NoneBeforeOrigin(con: seq<Output>)
    reads (set o | o in con)`mode, (set o | o in con)`x, (set o | o in con)`y
  {
    forall o :: o in con && o.mode.Some? ==> o.x >= 0 && o.y >= 0
  }

  method SideBySide(con: seq<Output>, start: nat, origin: Origin)
    requires |con| == 2 && con[0] != con[1] && 4 <= start <= 5
    requires forall o :: o in con ==> o.relativeTo == null && o.x == origin.x && o.y == origin.y
    requires origin.rotation.Some? ==> forall o :: o in con ==> o.rotation == origin.rotation.value
    modifies (set o | o in con)`relation, (set o | o in con)`relativeTo, (set o | o in con)`relationChanged
    modifies (set o | o in con)`placed, (set o | o in con)`x, (set o | o in con)`y
    ensures NoneBeforeOrigin(con) && Arranged(con, start, origin)
  {
    hide Layout.Acyclic, Layout.PlacedSet, Layout.WaitsFor, Layout.RelationHolds, Layout.NextTo, Layout.AtOrigin, Arranged;
    Wire(con, start);
    var dx, dy := Layout.SetPositions(con);
    ghost var right, left := con[if start == 4 then 1 else 0], con[if start == 4 then 0 else 1];
    assert right in con && left in con;
    SideIsArranged(con, start, right, left, dx, dy, origin);
  }

  /** The one stands next to the other, and the leftmost at the origin. */
  lemma SideIsArranged(con: seq<Output>, start: nat, right: Output, left: Output, dx: int, dy: int, origin: Origin)
    requires |con| == 2 && start >= 4 && right == con[if start == 4 then 1 else 0] && left == con[if start == 4 then 0 else 1]
    requires right.relativeTo == left && right.relation == RightOf && Layout.AtOrigin(con, dx, dy)
    requires left.mode.Some? ==> left.x == origin.x + dx && left.y == origin.y + dy
    requires right.mode.Some? && left.mode.Some? ==> Layout.NextTo(right)
    requires origin.rotation.Some? ==> forall o :: o in con ==> o.rotation == origin.rotation.value
    ensures NoneBeforeOrigin(con) && Arranged(con, start, origin)
  {
    assert forall o :: o in con <==> o == left || o == right;
  }

  /** do_switch up to the screen size, with the modes chosen. */
  method Arrange(outs: seq<Output>, con: seq<Output>, screen: Layout.Screen, start: nat, origin: Origin)
    returns (fits: bool, ghost w: int, ghost h: int)
    requires Layout.Distinct(con) && forall o :: o in con ==> o in outs
    requires origin.x >= 0 && origin.y >= 0 && (|con| == 2 ==> start <= 5)
    modifies outs`x, outs`y, outs`rotation, outs`relation, outs`relativeTo, outs`relationChanged, outs`placed, screen
    ensures Layout.TightBox(con, w, h) && (fits <==> w <= screen.maxWidth && h <= screen.maxHeight)
    ensures fits ==> screen.fbWidth == Max(w, screen.minWidth) && screen.fbHeight == Max(h, screen.minHeight)
    ensures fits ==> Encloses(con, screen.fbWidth, screen.fbHeight)
    ensures Arranged(con, start, origin)
  {
    hide Arranged, Layout.TightBox, Encloses;
    StartOver(con, origin);
    if |con| == 2 && start >= 4 {
      SideBySide(con, start, origin);
    } else {
      AllAtOnePlace(con, start, origin);
    }
    assert NoneBeforeOrigin(con);
    fits, w, h := Layout.SetScreenSize(con, screen);
    if fits { BoxEncloses(con, w, h, screen.fbWidth, screen.fbHeight); }
  }

  lemma AllAtOnePlace(con: seq<Output>, start: nat, origin: Origin)
    requires !(|con| == 2 && start >= 4) && forall o :: o in con ==> o.x == origin.x && o.y == origin.y
    requires origin.rotation.Some? ==> forall o :: o in con ==> o.rotation == origin.rotation.value
    ensures Arranged(con, start, origin)
  {
  }

  lemma BoxEncloses(con: seq<Output>, w: int, h: int, width: int, height: int)
    requires Layout.TightBox(con, w, h) && NoneBeforeOrigin(con) && w <= width && h <= height
    ensures Encloses(con, width, height)
  {
  }

  /** The outputs can use these CRTCs; those they hold are among them, or were set up in an earlier switch. */
  ghost predicate Among(outs: seq<Output>, crtcs: seq<Crtc>)
    reads (set o | o in outs)`crtc, (set o | o in outs && o.crtc != null :: o.crtc)`outputs
  {
    && (forall o, c :: o in outs && c in o.crtcs ==> c in crtcs)
    && (forall o :: o in outs && o.crtc != null ==> o.crtc in crtcs || o.crtc.outputs != [])
  }

  /** reset_crtcs_for_outputs: an output lets go of a CRTC that was set up in an earlier switch. */
  method ResetCrtcs(outs: seq<Output>)
    requires forall i, j :: 0 <= i < j < |outs| ==> outs[i] != outs[j]
    modifies outs`crtc
    ensures forall o :: o in outs ==>
      o.crtc == if old(o.crtc) != null && old(o.crtc).outputs != [] then null else old(o.crtc)
  {
    for i := 0 to |outs|
      invariant forall j :: 0 <= j < i ==>
        outs[j].crtc == if old(outs[j].crtc) != null && old(outs[j].crtc).outputs != [] then null else old(outs[j].crtc)
      invariant forall j :: i <= j < |outs| ==> outs[j].crtc == old(outs[j].crtc)
    {
      if outs[i].crtc != null && outs[i].crtc.outputs != [] { outs[i].crtc := null; }
    }
  }

  ghost predicate AllSetUp(con: seq<Output>, crtcs: seq<Crtc>)
    reads crtcs, set o | o in con
  {
    forall c :: c in crtcs ==> SetUpFor(c, Driven(con, c))
  }

  method Configure(con: seq<Output>, crtcs: seq<Crtc>, w: int, h: int)
    requires Encloses(con, w, h)
    requires forall c :: c in crtcs ==> SetUpFor(c, [])
    requires forall o :: o in con && o.crtc != null ==> o.crtc in crtcs
    modifies crtcs
    ensures forall c :: c in crtcs ==> Inside(Target(c), w, h)
    ensures forall o :: o in con && o.mode.Some? && o.crtc != null ==> Shows(Target(o.crtc), o)
    ensures AllSetUp(con, crtcs)
  {
    SetCrtcs(con, set c | c in crtcs);
    forall o | o in con && o.mode.Some? && o.crtc != null ensures Shows(Target(o.crtc), o) {
      DrivenIsShown(con, o);
    }
    forall c | c in crtcs ensures Inside(Target(c), w, h) {
      TargetsFit(con, c, w, h);
    }
  }

  /** The CRTC given to o is on and shows on o. */
  ghost predicate Lit(server: Server, o: Output)
    reads server, o
  {
    o.crtc != null && o.crtc in server.now.live && Shows(server.now.live[o.crtc], o)
  }

  /** The request made for a CRTC lights o. */
  predicate Shows(cfg: CrtcConfig, o: Output) {
    cfg.mode.Some? && o.xid in cfg.outputs
  }

  lemma DrivenIsShown(con: seq<Output>, o: Output)
    requires o in con && o.mode.Some? && o.crtc != null && SetUpFor(o.crtc, Driven(con, o.crtc))
    ensures Shows(Target(o.crtc), o)
  {
    DrivenMembers(con, o.crtc);
    var os := Driven(con, o.crtc);
    assert o in os && os[0] in os;
    var i :| 0 <= i < |os| && os[i] == o;
    assert Xids(os)[i] == o.xid;
  }

  /** b shows just what is to the right of a. */
  ghost predicate Abreast(a: CrtcConfig, b: CrtcConfig) {
    && a.mode.Some? && b.y == a.y
    && (a.rotation in {Rotate0, Rotate180} ==> b.x == a.x + a.mode.value.width)
    && (a.rotation in {Rotate90, Rotate270} ==> b.x == a.x + a.mode.value.height)
  }

  /** Of two enabled outputs side by side: with a CRTC each, their pictures lie side by side; with one for
      both, both show the picture of the first. */
  ghost predicate SideShown(p: Picture, con: seq<Output>, start: nat)
    reads set o | o in con
  {
    |con| == 2 && start >= 4 && con[0].mode.Some? && con[1].mode.Some? ==>
      var right, left := con[if start == 4 then 1 else 0], con[if start == 4 then 0 else 1];
      && left.crtc in p.live && right.crtc in p.live
      && (left.crtc != right.crtc ==>
            && p.live[left.crtc].outputs == [left.xid] && p.live[left.crtc].mode == left.mode
            && p.live[right.crtc].outputs == [right.xid] && p.live[right.crtc].mode == right.mode
            && Abreast(p.live[left.crtc], p.live[right.crtc]))
      && (left.crtc == right.crtc ==>
            && p.live[left.crtc].outputs == [con[0].xid, con[1].xid] && p.live[left.crtc].mode == con[0].mode
            && p.live[left.crtc].x == con[0].x && p.live[left.crtc].y == con[0].y)
  }

  lemma {:induction false} PlacesClimb(ix: seq<nat>, k: nat)
    requires k < |ix| && forall i, j :: 0 <= i < j < |ix| ==> ix[i] < ix[j]
    ensures ix[k] >= k
  {
    if k > 0 { PlacesClimb(ix, k - 1); }
  }

  lemma PlacesOfTwo(con: seq<Output>, c: Crtc, ix: seq<nat>)
    requires |con| == 2 && con[0].mode.Some? && con[1].mode.Some? && Places(con, c, ix)
    ensures ix == (if con[0].crtc == c then [0] else []) + (if con[1].crtc == c then [1] else [])
  {
    assert forall k :: 0 <= k < |ix| ==> ix[k] == 0 || ix[k] == 1;
    assert con[0].crtc == c ==> 0 in ix;
    assert con[1].crtc == c ==> 1 in ix;
    if ix != [] { PlacesClimb(ix, |ix| - 1); }
    if |ix| == 2 {
      assert ix[0] == 0 && ix[1] == 1;
      assert ix == [0] + [1];
    } else if |ix| == 1 {
      assert ix == [ix[0]];
      assert ix[0] == 0 ==> 1 !in ix;
      assert ix[0] == 1 ==> 0 !in ix;
      assert con[ix[0]].crtc == c;
    }
  }

  lemma SideIsShown(p: Picture, con: seq<Output>, crtcs: seq<Crtc>, start: nat, origin: Origin)
    requires AllShown(p, con, crtcs) && Arranged(con, start, origin)
    requires forall o :: o in con && o.mode.Some? ==> o.crtc != null && o.crtc in crtcs
    ensures SideShown(p, con, start)
  {
    hide Places;
    if |con| == 2 && start >= 4 && con[0].mode.Some? && con[1].mode.Some? {
      var a, b := con[0], con[1];
      assert a in con && b in con;
      var ix :| Places(con, a.crtc, ix) && ShowsAt(p.live[a.crtc], con, ix);
      var jx :| Places(con, b.crtc, jx) && ShowsAt(p.live[b.crtc], con, jx);
      PlacesOfTwo(con, a.crtc, ix);
      PlacesOfTwo(con, b.crtc, jx);
    }
  }

  /** The tail of do_switch: place, size, let go of the CRTCs of the last switch, pick among the records
      as get_crtcs makes them, set them up, apply. Each outcome has its cause:
      the box around the outputs is too big; the search had to run and no valid assignment lights every
      enabled output; apply succeeds or panics. Only apply asks the server for anything. */
  method Switch(outs: seq<Output>, con: seq<Output>, crtcs: seq<Crtc>, modes: seq<Mode>, memory: Crtc -> bool,
                screen: Layout.Screen, server: Server, start: nat, origin: Origin, displayWidth: int, displayHeight: int)
    returns (outcome: Outcome, ghost w: int, ghost h: int, ghost searched: bool, ghost q: CrtcSearch.Problem,
             ghost panic: Picture, ghost asked: nat)
    requires (forall i, j :: 0 <= i < j < |outs| ==> outs[i] != outs[j]) && Layout.Distinct(con)
    requires forall o :: o in con ==> o in outs
    requires origin.x >= 0 && origin.y >= 0 && (|con| == 2 ==> start <= 5)
    requires Among(outs, crtcs)
    requires Drives(server, crtcs) && Safe(server.now)
    requires forall c :: c in crtcs ==> SetUpFor(c, []) && server.now.live[c] == c.reported && KnownMode(modes, c.reported.mode)
    modifies outs`x, outs`y, outs`rotation, outs`relation, outs`relativeTo, outs`relationChanged, outs`placed
    modifies outs`crtc, outs`current, screen, crtcs, server
    ensures Layout.TightBox(con, w, h) && Arranged(con, start, origin)
    ensures outcome.ScreenTooBig? <==> !(w <= screen.maxWidth && h <= screen.maxHeight)
    ensures outcome.NoCrtc? ==> searched
    ensures !outcome.ScreenTooBig? && searched ==> CrtcSearch.FreshProblem(q, outs, con)
    ensures !outcome.ScreenTooBig? && searched && CrtcSearch.FewEnabled(q) ==> (outcome.NoCrtc? <==> !CrtcSearch.Lightable(q))
    ensures outcome.ScreenTooBig? || outcome.NoCrtc? ==> server.now == old(server.now) && server.served == old(server.served)
    ensures outcome.Applied? || outcome.Panicked? ==>
      && screen.fbWidth == Max(w, screen.minWidth) && screen.fbHeight == Max(h, screen.minHeight)
      && CarriedOut(outcome.Applied?, old(server.now), old(server.served), old(server.alwaysSafe), con, crtcs, modes, memory,
                    screen.fbWidth, screen.fbHeight, server, panic, asked, displayWidth, displayHeight)
    ensures outcome.ScreenTooBig? || outcome.NoCrtc? ==> server.alwaysSafe == old(server.alwaysSafe)
    ensures !outcome.ScreenTooBig? && old(LetGo(con)) ==> SharingKnown(outs, con, searched, !outcome.NoCrtc?)
    ensures outcome.Applied? ==> SideShown(server.now, con, start)
  {
    hide SharingKnown, LetGo, SideShown, AllShown, Arranged, CarriedOut, Among, Safe, Inside, SetUpFor, Layout.TightBox, ApplyWorks, AfterPanic, RevertIsSafe, DistinctCrtcs,
      Encloses, Driven, Lit, Max, CrtcSearch.FreshProblem, CrtcSearch.FewEnabled, CrtcSearch.Lightable, KnownMode;
    NotSetUp(crtcs);
    q, searched, panic, asked := CrtcSearch.Problem([], []), false, server.now, 0;
    var fits;
    fits, w, h := Arrange(outs, con, screen, start, origin);
    if !fits { return ScreenTooBig, w, h, searched, q, panic, asked; }
    var found;
    found, searched, q := Pick(outs, con, crtcs);
    if !found { return NoCrtc, w, h, searched, q, panic, asked; }
    var ok;
    ok, panic, asked := SetUpAndApply(con, crtcs, modes, memory, screen, server, displayWidth, displayHeight);
    outcome := if ok then Applied else Panicked;
    if ok { SideIsShown(server.now, con, crtcs, start, origin); }
  }

  /** The places in con of the enabled outputs with CRTC c, in order. */
  ghost predicate Places(con: seq<Output>, c: Crtc, ix: seq<nat>)
    reads (set o | o in con)`mode, (set o | o in con)`crtc
  {
    && (forall k :: 0 <= k < |ix| ==> ix[k] < |con| && con[ix[k]].mode.Some? && con[ix[k]].crtc == c)
    && (forall j, k :: 0 <= j < k < |ix| ==> ix[j] < ix[k])
    && (forall i: nat :: i < |con| && con[i].mode.Some? && con[i].crtc == c ==> i in ix)
  }

  /** cfg shows, on the outputs at these places and in their order, what the first of them wants; or
      nothing if there are none. */
  ghost predicate ShowsAt(cfg: CrtcConfig, con: seq<Output>, ix: seq<nat>)
    reads (set o | o in con)`mode, (set o | o in con)`x, (set o | o in con)`y, (set o | o in con)`rotation
  {
    && (ix == [] ==> cfg.mode.None?)
    && (ix != [] ==>
      && ix[0] < |con| && cfg.mode == con[ix[0]].mode && cfg.rotation == con[ix[0]].rotation
      && cfg.x == con[ix[0]].x && cfg.y == con[ix[0]].y
      && |cfg.outputs| == |ix| && forall k :: 0 <= k < |ix| ==> ix[k] < |con| && cfg.outputs[k] == con[ix[k]].xid)
  }

  /** Every CRTC shows what the outputs it has been given want. */
  ghost predicate AllShown(p: Picture, con: seq<Output>, crtcs: seq<Crtc>)
    reads set o | o in con
  {
    forall c :: c in crtcs ==> c in p.live && exists ix :: Places(con, c, ix) && ShowsAt(p.live[c], con, ix)
  }

  ghost function PlacesOf(con: seq<Output>, c: Crtc): (ix: seq<nat>)
    reads (set o | o in con)`mode, (set o | o in con)`crtc
    ensures forall k :: 0 <= k < |ix| ==> ix[k] < |con|
    ensures |ix| == |Driven(con, c)| && forall k :: 0 <= k < |ix| ==> con[ix[k]] == Driven(con, c)[k]
  {
    if con == [] then []
    else
      var n := |con| - 1;
      PlacesOf(con[..n], c) + if con[n].mode.Some? && con[n].crtc == c then [n] else []
  }

  lemma PlacesStep(con: seq<Output>, c: Crtc, before: seq<nat>)
    requires con != [] && Places(con[..|con| - 1], c, before)
    ensures var n := |con| - 1;
      Places(con, c, before + if con[n].mode.Some? && con[n].crtc == c then [n] else [])
  {
    var n := |con| - 1;
    var ix := before + if con[n].mode.Some? && con[n].crtc == c then [n] else [];
    forall i: nat | i < |con| && con[i].mode.Some? && con[i].crtc == c ensures i in ix {
      if i < n {
        assert con[..n][i] == con[i] && i in before;
      } else {
        assert ix[|ix| - 1] == n;
      }
    }
  }

  lemma {:induction false} PlacesAre(con: seq<Output>, c: Crtc)
    ensures Places(con, c, PlacesOf(con, c))
  {
    hide Places, Driven;
    if con == [] {
      NoPlaces(c);
    } else {
      PlacesAre(con[..|con| - 1], c);
      PlacesStep(con, c, PlacesOf(con[..|con| - 1], c));
    }
  }

  lemma NoPlaces(c: Crtc)
    ensures Places([], c, [])
  {
  }

  /** The request for a CRTC that is to be on asks for just that. */
  lemma TargetShows(con: seq<Output>, c: Crtc, ix: seq<nat>)
    requires SetUpFor(c, Driven(con, c)) && ix == PlacesOf(con, c)
    ensures if c.mode.Some? then ShowsAt(Target(c), con, ix)
            else forall cfg: CrtcConfig :: cfg.mode.None? ==> ShowsAt(cfg, con, ix)
  {
    hide Driven, PlacesOf;
    DrivenMembers(con, c);
    var os := Driven(con, c);
    if os != [] { assert os[0] in os && con[ix[0]] == os[0]; }
  }

  lemma ReachedIsShown(server: Server, con: seq<Output>, crtcs: seq<Crtc>)
    requires Drives(server, crtcs) && Reached(server, crtcs) && AllSetUp(con, crtcs)
    ensures AllShown(server.now, con, crtcs)
  {
    hide Driven, PlacesOf, Places, ShowsAt, SetUpFor;
    forall c | c in crtcs ensures exists ix :: Places(con, c, ix) && ShowsAt(server.now.live[c], con, ix) {
      PlacesAre(con, c);
      assert SetUpFor(c, Driven(con, c));
      TargetShows(con, c, PlacesOf(con, c));
      assert ShowsAt(server.now.live[c], con, PlacesOf(con, c));
    }
  }

  /** What set_crtcs and apply come to: every CRTC is set up for its outputs; apply succeeds exactly when
      ApplyWorks says, and then every CRTC shows what its outputs want at the new size; or all is as
      revert leaves it, and the run is safe exactly if the revert is. */
  ghost predicate CarriedOut(ok: bool, was: Picture, from: nat, safe: bool, con: seq<Output>, crtcs: seq<Crtc>,
                             modes: seq<Mode>, memory: Crtc -> bool, w: int, h: int, server: Server, panic: Picture, asked: nat,
                             displayWidth: int, displayHeight: int)
    reads crtcs, server, set o | o in con
  {
    && AllSetUp(con, crtcs)
    && (ok <==> ApplyWorks(crtcs, modes, memory, server.accepts, from, w, h))
    && if ok then
         && server.alwaysSafe == safe && server.now.width == w && server.now.height == h
         && Drives(server, crtcs) && AllShown(server.now, con, crtcs)
         && forall o :: o in con && o.mode.Some? ==> Lit(server, o)
       else
         && AfterPanic(was, crtcs, modes, memory, from, w, h, server, panic, asked, displayWidth, displayHeight)
         && (server.alwaysSafe <==> safe && RevertIsSafe(panic, crtcs, server.accepts, asked, displayWidth, displayHeight))
  }

  /** set_crtcs and apply. */
  method SetUpAndApply(con: seq<Output>, crtcs: seq<Crtc>, modes: seq<Mode>, memory: Crtc -> bool,
                       screen: Layout.Screen, server: Server, displayWidth: int, displayHeight: int)
    returns (ok: bool, ghost panic: Picture, ghost asked: nat)
    requires Drives(server, crtcs) && Safe(server.now) && Encloses(con, screen.fbWidth, screen.fbHeight)
    requires forall o :: o in con && o.crtc != null ==> o.crtc in crtcs
    requires forall o :: o in con && o.mode.Some? ==> o.crtc != null
    requires forall c :: c in crtcs ==> SetUpFor(c, []) && server.now.live[c] == c.reported && KnownMode(modes, c.reported.mode)
    modifies crtcs, server
    ensures CarriedOut(ok, old(server.now), old(server.served), old(server.alwaysSafe), con, crtcs, modes, memory,
                       screen.fbWidth, screen.fbHeight, server, panic, asked, displayWidth, displayHeight)
    ensures ok ==> AllShown(server.now, con, crtcs)
  {
    hide Safe, Inside, ApplyWorks, AfterPanic, RevertIsSafe, DistinctCrtcs, Encloses, KnownMode, Driven, AllSetUp, AllShown,
      Shows, Target, Lit, Reached;
    Configure(con, crtcs, screen.fbWidth, screen.fbHeight);
    ghost var dark;
    ok, panic, asked, dark := Apply(crtcs, modes, memory, screen, server, displayWidth, displayHeight);
    if ok {
      ReachedIsLit(server, crtcs, con);
      ReachedIsShown(server, con, crtcs);
    }
  }

  lemma ReachedIsLit(server: Server, crtcs: seq<Crtc>, con: seq<Output>)
    requires Drives(server, crtcs) && Reached(server, crtcs)
    requires forall o :: o in con && o.mode.Some? ==> o.crtc != null && o.crtc in crtcs && Shows(Target(o.crtc), o)
    ensures forall o :: o in con && o.mode.Some? ==> Lit(server, o)
  {
    hide Target;
    forall o | o in con && o.mode.Some? ensures Lit(server, o) {
      assert Target(o.crtc).mode == o.crtc.mode by { TargetMode(o.crtc); }
    }
  }

  lemma TargetMode(c: Crtc)
    ensures Target(c).mode == c.mode
  {
  }

  lemma NotSetUp(crtcs: seq<Crtc>)
    requires forall c :: c in crtcs ==> SetUpFor(c, [])
    ensures forall c :: c in crtcs ==> c.outputs == []
  {
  }

  /** The outputs hold no CRTC, or one that was set up in an earlier switch. */
  ghost predicate LetGo(con: seq<Output>)
    reads (set o | o in con)`crtc, (set o | o in con && o.crtc != null :: o.crtc)`outputs
  {
    forall o :: o in con && o.crtc != null ==> o.crtc.outputs != []
  }

  /** If these two are the only enabled outputs, it was known before whether the search had to run, and
      whether both end on one CRTC. */
  ghost predicate SharingKnown(outs: seq<Output>, con: seq<Output>, searched: bool, found: bool)
    reads (set o | o in outs)`mode, (set o | o in con)`mode, (set o | o in con)`crtc
  {
    CrtcSearch.OnlyTwo(outs, con) ==>
      && (searched <==> CrtcSearch.CannotServe(con[0], con[1]))
      && (found ==> (con[0].crtc == con[1].crtc <==> CrtcSearch.WillShare(outs, con[0], con[1])))
  }

  /** reset_crtcs_for_outputs and pick_crtcs: with CRTCs that are not set up yet every CRTC agrees with
      every output. For two outputs alone it is known beforehand whether they will be given one CRTC. */
  method Pick(outs: seq<Output>, con: seq<Output>, crtcs: seq<Crtc>)
    returns (found: bool, ghost searched: bool, ghost q: CrtcSearch.Problem)
    requires (forall i, j :: 0 <= i < j < |outs| ==> outs[i] != outs[j]) && Layout.Distinct(con)
    requires forall o :: o in con ==> o in outs
    requires forall c :: c in crtcs ==> c.outputs == []
    requires Among(outs, crtcs)
    modifies outs`crtc, outs`current
    ensures found ==> forall o :: o in con && o.mode.Some? ==> o.crtc != null
    ensures forall o :: o in outs && o.crtc != null ==> o.crtc in crtcs
    ensures !searched ==> found
    ensures searched ==> CrtcSearch.FreshProblem(q, outs, con)
    ensures searched && CrtcSearch.FewEnabled(q) ==> (found <==> CrtcSearch.Lightable(q))
    ensures old(LetGo(con)) ==> SharingKnown(outs, con, searched, found)
  {
    hide CrtcSearch.FreshProblem, CrtcSearch.Lightable, CrtcSearch.FewEnabled, SharingKnown;
    ResetCrtcs(outs);
    found, searched, q := PickFresh(outs, con);
  }

  method PickFresh(outs: seq<Output>, con: seq<Output>)
    returns (found: bool, ghost searched: bool, ghost q: CrtcSearch.Problem)
    requires (forall i, j :: 0 <= i < j < |outs| ==> outs[i] != outs[j]) && Layout.Distinct(con)
    requires forall o :: o in con ==> o in outs
    requires forall o, c :: o in outs && c in o.crtcs ==> c.outputs == []
    modifies outs`crtc, outs`current
    ensures found ==> forall o :: o in con && o.mode.Some? ==> o.crtc != null
    ensures forall o :: o in outs && o.crtc != null ==> o.crtc in o.crtcs || o.crtc == old(o.crtc)
    ensures !searched ==> found
    ensures searched ==> CrtcSearch.FreshProblem(q, outs, con)
    ensures searched && CrtcSearch.FewEnabled(q) ==> (found <==> CrtcSearch.Lightable(q))
    ensures old(forall o :: o in con ==> o.crtc == null) ==> SharingKnown(outs, con, searched, found)
  {
    hide CrtcSearch.PickedCanClone, CrtcSearch.Contested, CrtcSearch.Stuck, CrtcSearch.Describes, CrtcSearch.Valid,
      CrtcSearch.Best, CrtcSearch.FreshProblem, CrtcSearch.Lightable, CrtcSearch.FewEnabled, CrtcSearch.MatchUp,
      CrtcSearch.CannotServe, CrtcSearch.WillShare, CrtcSearch.CrtcsOf, CrtcSearch.CurrentOf;
    MapsAre(con);
    ghost var m := CrtcSearch.MatchUp(outs, con, CrtcSearch.CrtcsOf(con), 0);
    ghost var two := CrtcSearch.OnlyTwo(outs, con) && forall o :: o in con ==> o.crtc == null;
    if two { MatchTwoReset(outs, con); }
    ghost var picked, stuck;
    found, searched, picked, stuck, q := CrtcSearch.PickCrtcs(outs, con);
    if searched { CrtcSearch.NothingSetUp(q, outs, con); }
    MapsAre(con);
    if two && searched && found { SearchTwoFound(outs, con, q); }
  }

  lemma MapsAre(con: seq<Output>)
    ensures forall o :: o in con ==> o in CrtcSearch.CrtcsOf(con) && CrtcSearch.CrtcsOf(con)[o] == o.crtc
    ensures forall o :: o in con ==> o in CrtcSearch.CurrentOf(con) && CrtcSearch.CurrentOf(con)[o] == o.current
  {
  }

  lemma MatchTwoReset(outs: seq<Output>, con: seq<Output>)
    requires CrtcSearch.OnlyTwo(outs, con) && forall o :: o in con ==> o.crtc == null
    requires forall o, c :: o in con && c in o.crtcs ==> c.outputs == []
    ensures |con| == 2
    ensures var a, b := con[0], con[1]; var m := CrtcSearch.MatchUp(outs, con, CrtcSearch.CrtcsOf(con), 0);
      && (m.happy <==> !CrtcSearch.CannotServe(a, b))
      && a in m.at && b in m.at && (m.happy ==> (m.at[a] == m.at[b] <==> CrtcSearch.WillShare(outs, a, b)))
      && (!m.happy && a.crtcs != [] ==> m.at[a] == a.crtcs[0] && m.at[b] == null)
  {
    hide CrtcSearch.MatchUp, CrtcSearch.CannotServe, CrtcSearch.WillShare;
    assert forall o :: o in con <==> o == con[0] || o == con[1];
    assert CrtcSearch.CrtcsOf(con) == map[con[0] := null, con[1] := null];
    CrtcSearch.MatchTwo(outs, con);
  }

  lemma SearchTwoFound(outs: seq<Output>, con: seq<Output>, q: CrtcSearch.Problem)
    requires CrtcSearch.OnlyTwo(outs, con) && CrtcSearch.FreshProblem(q, outs, con)
    requires forall i, j :: 0 <= i < j < |outs| ==> outs[i] != outs[j]
    requires CrtcSearch.CannotServe(con[0], con[1])
    requires con[0].crtcs != [] ==> con[0].current == con[0].crtcs[0]
    requires CrtcSearch.Assigned(outs) == CrtcSearch.Best(q, []) && con[0].crtc != null && con[1].crtc != null
    requires con[0].crtcs != []
    ensures con[0].crtc == con[1].crtc <==> CrtcSearch.WillShare(outs, con[0], con[1])
  {
    hide CrtcSearch.Best, CrtcSearch.CannotServe, CrtcSearch.WillShare, CrtcSearch.FreshProblem;
    var i :| 0 <= i < |outs| && outs[i] == con[0];
    var j :| 0 <= j < |outs| && outs[j] == con[1];
    CrtcSearch.SearchTwo(q, outs, con, i, j);
  }

  /** Two outputs that can clone each other and list one CRTC, switched to state 4: side by side by their
      positions, they are both given that CRTC, and both show the same picture. */
  method MirroredSideBySide() returns (ghost server: Server, ghost c: Crtc, ghost con: seq<Output>)
    ensures fresh(server) && |con| == 2 && con[0].xid == 11 && con[1].xid == 12
    ensures con[0].x == 0 && con[1].x == 1920 && con[0].y == con[1].y == 0
    ensures c in server.now.live && server.now.live[c].outputs == [11, 12]
    ensures server.now.live[c].mode == Some(Mode(1, 1920, 1080)) && server.now.live[c].x == server.now.live[c].y == 0
  {
    var m := Mode(1, 1920, 1080);
    var crtc := new Crtc(1, OFF);
    var a := new Output(11, [12], [crtc]);
    var b := new Output(12, [11], [crtc]);
    a.mode, b.mode := Some(m), Some(m);
    var s := new Server(_ => true, Picture(1920, 1080, map[crtc := OFF]));
    var screen := new Layout.Screen(320, 200, 8192, 8192);
    server, c, con := s, crtc, [a, b];
    assert OneForTwo(a, b, crtc, m);
    SwitchTwo(a, b, crtc, m, s, screen);
  }

  method SwitchTwo(a: Output, b: Output, c: Crtc, m: Mode, s: Server, screen: Layout.Screen)
    requires OneForTwo(a, b, c, m) && a.crtc == b.crtc == null && c.mode == None && c.outputs == []
    requires s.now == Picture(1920, 1080, map[c := OFF]) && s.served == 0 && s.alwaysSafe && forall n: nat :: s.accepts(n)
    requires screen.minWidth == 320 && screen.minHeight == 200 && screen.maxWidth == screen.maxHeight == 8192
    modifies a, b, c, s, screen
    ensures a.x == 0 && b.x == 1920 && a.y == b.y == 0
    ensures c in s.now.live && s.now.live[c].outputs == [11, 12]
    ensures s.now.live[c].mode == Some(m) && s.now.live[c].x == s.now.live[c].y == 0
  {
    var outs, memory, origin := [a, b], (k: Crtc) => true, Origin(0, 0, Some(Rotate0));
    ReadyToSwitch(s, a, b, c, m);
    hide *;
    ghost var was := s.now;
    var outcome;
    ghost var w, h, searched, q, panic, asked;
    outcome, w, h, searched, q, panic, asked := Switch(outs, outs, [c], [m], memory, screen, s, 4, origin, 1920, 1080);
    assert OneForTwo(a, b, c, m);
    TwoSideBySide(a, b, c, m, origin, w, h);
    TogetherOnOne(a, b, c, m, searched, !outcome.NoCrtc?);
    MaxIs();
    EndsTogether(was, s, a, b, c, m, memory, outcome, panic, asked);
  }

  lemma MaxIs()
    ensures Max(3840, 320) == 3840 && Max(1080, 200) == 1080
  {
  }

  lemma EndsTogether(was: Picture, s: Server, a: Output, b: Output, c: Crtc, m: Mode, memory: Crtc -> bool,
                     outcome: Outcome, panic: Picture, asked: nat)
    requires OneForTwo(a, b, c, m) && a.crtc == b.crtc && a.x == a.y == 0 && memory(c) && forall n: nat :: s.accepts(n)
    requires outcome.Applied? || outcome.Panicked?
    requires CarriedOut(outcome.Applied?, was, 0, true, [a, b], [c], [m], memory, 3840, 1080, s, panic, asked, 1920, 1080)
    requires outcome.Applied? ==> SideShown(s.now, [a, b], 4)
    ensures c in s.now.live && s.now.live[c].outputs == [11, 12]
    ensures s.now.live[c].mode == Some(m) && s.now.live[c].x == s.now.live[c].y == 0
  {
    hide ApplyWorks, AfterPanic, RevertIsSafe, AllShown, AllSetUp;
    NothingRefused(a, b, c, m, memory, s, 3840, 1080);
    assert [a, b][0] == a && [a, b][1] == b;
  }

  /** Such outputs and such a CRTC. */
  ghost predicate OneForTwo(a: Output, b: Output, c: Crtc, m: Mode)
    reads a`mode, b`mode
  {
    && a != b && a.mode == b.mode == Some(m) && m == Mode(1, 1920, 1080) && a.crtcs == b.crtcs == [c]
    && a.xid == 11 && b.xid == 12 && a.clones == [12] && b.clones == [11] && c.reported == OFF
  }

  lemma ReadyToSwitch(s: Server, a: Output, b: Output, c: Crtc, m: Mode)
    requires OneForTwo(a, b, c, m) && a.crtc == b.crtc == null && c.mode == None && c.outputs == []
    requires s.now == Picture(1920, 1080, map[c := OFF])
    ensures Layout.Distinct([a, b]) && Among([a, b], [c]) && Drives(s, [c]) && Safe(s.now) && LetGo([a, b])
    ensures SetUpFor(c, []) && KnownMode([m], c.reported.mode)
  {
    assert [c][0] == c;
  }

  lemma TwoSideBySide(a: Output, b: Output, c: Crtc, m: Mode, origin: Origin, w: int, h: int)
    requires OneForTwo(a, b, c, m) && origin == Origin(0, 0, Some(Rotate0))
    requires Layout.TightBox([a, b], w, h) && Arranged([a, b], 4, origin)
    ensures w == 3840 && h == 1080 && a.x == a.y == b.y == 0 && b.x == 1920
  {
    assert [a, b][0] == a && [a, b][1] == b && a in [a, b] && b in [a, b];
  }

  lemma TogetherOnOne(a: Output, b: Output, c: Crtc, m: Mode, searched: bool, found: bool)
    requires OneForTwo(a, b, c, m) && SharingKnown([a, b], [a, b], searched, found)
    ensures !searched && (found ==> a.crtc == b.crtc)
  {
    var con := [a, b];
    assert con[0] == a && con[1] == b && a in con && b in con && c in b.crtcs;
    assert CrtcSearch.OnlyTwo(con, con);
  }

  lemma NothingRefused(a: Output, b: Output, c: Crtc, m: Mode, memory: Crtc -> bool, s: Server, w: int, h: int)
    requires OneForTwo(a, b, c, m) && memory(c) && forall n: nat :: s.accepts(n)
    ensures ApplyWorks([c], [m], memory, s.accepts, 0, w, h)
  {
    WillingServer([c], [m], memory, s.accepts, 0, w, h);
  }
}
