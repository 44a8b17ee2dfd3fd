/** Pacing of buffer flips by a 32-bit vertical retrace counter. */
module FlipPacing {
  import opened Machine

  /** u_int subtraction. */
  function Minus(a: nat, b: nat): nat
    requires a < WRAP && b < WRAP
  {
    (a - b) % WRAP
  }

  /** The difference of the two words is the time between, modulo 2^32; so it never overstates it. */
  lemma WordsApart(now: nat, then0: nat)
    requires then0 <= now
    ensures Minus(Word(now), Word(then0)) == (now - then0) % WRAP <= now - then0
    ensures now - then0 < WRAP ==> Minus(Word(now), Word(then0)) == now - then0
  {
    var d := now - then0;
    assert now == WRAP * (now / WRAP) + Word(now) && then0 == WRAP * (then0 / WRAP) + Word(then0);
    assert d == WRAP * (now / WRAP - then0 / WRAP) + (Word(now) - Word(then0));
    AddMultiple(Word(now) - Word(then0), now / WRAP - then0 / WRAP);
  }

  lemma AddMultiple(x: int, k: int)
    ensures (WRAP * k + x) % WRAP == x % WRAP
  {
  }

  // ---------- When a wait ends ----------

  /** What a retrace function sees in its n-th call: a number of retraces, or a failure if negative. */
  type Retraces = nat -> int

  /** What the counter words say of a time d after the last flip. */
  ghost predicate Far(interval: nat, d: nat) {
    d % WRAP >= interval
  }

  /** A wait that starts d retraces after the last flip, with the n-th call, is over after k calls: one
      of them has failed, or the counter difference has reached the interval. */
  ghost predicate EndsWithin(vrt: Retraces, interval: nat, n: nat, d: nat, k: nat)
    decreases k
  {
    || Far(interval, d)
    || (k > 0 && (vrt(n) < 0 || EndsWithin(vrt, interval, n + 1, d + vrt(n), k - 1)))
  }

  /** How many calls have been made when it is over, and the time by then. */
  ghost function Waited(vrt: Retraces, interval: nat, n: nat, d: nat, k: nat): (nat, nat)
    requires EndsWithin(vrt, interval, n, d, k)
    decreases k
  {
    if Far(interval, d) then (n, d)
    else if vrt(n) < 0 then (n + 1, d)
    else Waited(vrt, interval, n + 1, d + vrt(n), k - 1)
  }

  ghost predicate Ends(vrt: Retraces, interval: nat, n: nat, d: nat) {
    exists k: nat :: EndsWithin(vrt, interval, n, d, k)
  }

  /** No wait goes on for ever, whenever it starts. */
  ghost predicate Patient(vrt: Retraces, interval: nat) {
    forall n: nat, d: nat :: Ends(vrt, interval, n, d)
  }

  /** A call that does not fail sees a retrace, and at most this many. */
  ghost predicate Ticking(vrt: Retraces, most: nat) {
    forall n: nat :: vrt(n) < 0 || 1 <= vrt(n) <= most
  }

  /** The retraces still missing, as the words tell. */
  ghost function Missing(interval: nat, d: nat): nat {
    if Far(interval, d) then 0 else interval - d % WRAP
  }

  /** If no call can slip past the interval again, a wait needs at most one call per retrace missing. */
  lemma {:induction false} TickingEnds(vrt: Retraces, interval: nat, n: nat, d: nat)
    requires interval < WRAP && Ticking(vrt, WRAP - interval)
    ensures EndsWithin(vrt, interval, n, d, Missing(interval, d))
    decreases Missing(interval, d)
  {
    if !Far(interval, d) && vrt(n) >= 0 {
      var e := d + vrt(n);
      StepsForward(d, vrt(n), interval);
      TickingEnds(vrt, interval, n + 1, e);
      EndsLater(vrt, interval, n + 1, e, Missing(interval, e), Missing(interval, d) - 1);
    }
  }

  lemma {:induction false} EndsLater(vrt: Retraces, interval: nat, n: nat, d: nat, k: nat, more: nat)
    requires EndsWithin(vrt, interval, n, d, k) && k <= more
    ensures EndsWithin(vrt, interval, n, d, more)
    ensures Waited(vrt, interval, n, d, more) == Waited(vrt, interval, n, d, k)
    ensures n <= Waited(vrt, interval, n, d, k).0 <= n + k
    decreases k
  {
    if !Far(interval, d) && vrt(n) >= 0 { EndsLater(vrt, interval, n + 1, d + vrt(n), k - 1, more - 1); }
  }

  lemma CallsMade(vrt: Retraces, interval: nat, n: nat, d: nat, k: nat)
    requires interval < WRAP && Ticking(vrt, WRAP - interval) && EndsWithin(vrt, interval, n, d, k)
    ensures Waited(vrt, interval, n, d, k).0 - n <= Missing(interval, d)
  {
    var m := Missing(interval, d);
    TickingEnds(vrt, interval, n, d);
    if k <= m { EndsLater(vrt, interval, n, d, k, m); } else { EndsLater(vrt, interval, n, d, m, k); }
    EndsLater(vrt, interval, n, d, m, m);
  }

  /** A call that takes whole turns of the counter gets the wait nowhere: the loop compares words, and
      waits for ever though the interval is long past. */
  lemma {:induction false} WholeTurnsNeverEnd(vrt: Retraces, interval: nat, n: nat, d: nat)
    requires !Far(interval, d) && forall i: nat :: vrt(i) >= 0 && vrt(i) % WRAP == 0
    ensures !Ends(vrt, interval, n, d)
  {
    forall k: nat ensures !EndsWithin(vrt, interval, n, d, k) {
      WholeTurnsGoOn(vrt, interval, n, d, k);
    }
  }

  lemma {:induction false} WholeTurnsGoOn(vrt: Retraces, interval: nat, n: nat, d: nat, k: nat)
    requires !Far(interval, d) && forall i: nat :: vrt(i) >= 0 && vrt(i) % WRAP == 0
    ensures !EndsWithin(vrt, interval, n, d, k)
    decreases k
  {
    if k > 0 {
      AddMultiple(d, vrt(n) / WRAP);
      WholeTurnsGoOn(vrt, interval, n + 1, d + vrt(n), k - 1);
    }
  }

  /** What a call sees that comes back one retrace later, but jumps over the rest of the counter's turn
      whenever the next retrace would end the wait. */
  function Slip(interval: nat, n: nat): nat
    requires 0 < interval < WRAP
  {
    if n % interval == interval - 1 then WRAP - interval + 1 else 1
  }

  /** Every call sees a retrace, and no call but those of an interval of one takes a whole turn; yet a
      wait that starts with the flip never ends. */
  lemma SlippingNeverEnds(interval: nat)
    requires 0 < interval < WRAP
    ensures var vrt := (n: nat) => Slip(interval, n);
      Ticking(vrt, WRAP - interval + 1) && !Ends(vrt, interval, 0, 0)
  {
    var vrt := (n: nat) => Slip(interval, n);
    forall k: nat ensures !EndsWithin(vrt, interval, 0, 0, k) {
      SlippingGoesOn(vrt, interval, 0, 0, k);
    }
  }

  /** After the n-th call the words tell n modulo the interval: never enough. */
  ghost predicate Slipped(interval: nat, n: nat, d: nat)
    requires interval > 0
  {
    d % WRAP == n % interval
  }

  lemma SlipOnce(interval: nat, n: nat, d: nat)
    requires 0 < interval < WRAP && Slipped(interval, n, d)
    ensures !Far(interval, d) && Slip(interval, n) > 0 && Slipped(interval, n + 1, d + Slip(interval, n))
  {
    NextCall(interval, n);
    LaterWord(d, Slip(interval, n));
    SlippedWord(interval, n % interval);
  }

  lemma SlippedWord(interval: nat, r: nat)
    requires r < interval < WRAP
    ensures (if r == interval - 1 then r + (WRAP - interval + 1) else r + 1) % WRAP == if r == interval - 1 then 0 else r + 1
  {
  }

  lemma LaterWord(d: nat, t: nat)
    ensures (d + t) % WRAP == (d % WRAP + t) % WRAP
  {
    assert d + t == WRAP * (d / WRAP) + (d % WRAP + t);
    AddMultiple(d % WRAP + t, d / WRAP);
  }

  lemma {:induction false} SlippingGoesOn(vrt: Retraces, interval: nat, n: nat, d: nat, k: nat)
    requires 0 < interval < WRAP && Slipped(interval, n, d) && forall i: nat :: vrt(i) == Slip(interval, i)
    ensures !EndsWithin(vrt, interval, n, d, k)
    decreases k
  {
    hide Slip, Far, Slipped;
    SlipOnce(interval, n, d);
    if k > 0 { SlippingGoesOn(vrt, interval, n + 1, d + vrt(n), k - 1); }
  }

  lemma NextCall(interval: nat, n: nat)
    requires interval > 0
    ensures (n + 1) % interval == if n % interval == interval - 1 then 0 else n % interval + 1
  {
    var q, r := n / interval, n % interval;
    if r == interval - 1 {
      assert n + 1 == interval * (q + 1);
      MultipleOf(interval, q + 1, 0);
    } else {
      assert n + 1 == interval * q + (r + 1);
      MultipleOf(interval, q, r + 1);
    }
  }

  lemma MultipleOf(m: nat, q: nat, r: nat)
    requires r < m
    ensures (m * q + r) % m == r
  {
    var x := m * q + r;
    var a, b := x / m, x % m;
    assert m * (q - a) == b - r;
    if q > a { AtLeast(m, q - a); }
    if q < a { AtLeast(m, a - q); }
  }

  lemma AtLeast(m: nat, k: nat)
    requires k >= 1
    ensures m * k >= m
  {
  }

  /** With retrace functions that see between one and this many retraces a call, or fail, every wait ends. */
  ghost predicate AllEnd(interval: nat, most: nat) {
    forall vrt: Retraces :: Ticking(vrt, most) ==> Patient(vrt, interval)
  }

  /** That is so exactly when no call can take a counter that has not reached the interval past it. */
  lemma AllEndIff(interval: nat, most: nat)
    requires 0 < interval < WRAP && most >= 1
    ensures AllEnd(interval, most) <==> most <= WRAP - interval
  {
    if most <= WRAP - interval {
      forall vrt: Retraces, n: nat, d: nat | Ticking(vrt, most) ensures Ends(vrt, interval, n, d) {
        TickingEnds(vrt, interval, n, d);
      }
    } else {
      SlippingNeverEnds(interval);
      var vrt := (n: nat) => Slip(interval, n);
      assert Ticking(vrt, most);
    }
  }

  lemma StepsForward(d: nat, t: nat, interval: nat)
    requires d % WRAP < interval < WRAP && 1 <= t <= WRAP - interval
    ensures (d + t) % WRAP == d % WRAP + t
  {
    LaterWord(d, t);
  }

  // ---------- The window ----------

  ghost predicate NeverFails(vrt: Retraces) {
    forall n: nat :: vrt(n) >= 0
  }

  ghost predicate Spaced(flips: seq<nat>, interval: nat) {
    forall i :: 0 < i < |flips| ==> flips[i - 1] + interval <= flips[i]
  }

  lemma SpacedThen(flips: seq<nat>, t: nat, interval: nat)
    ensures Spaced(flips, interval) && (flips != [] ==> flips[|flips| - 1] + interval <= t) ==>
      Spaced(flips + [t], interval)
  {
  }

  /** A double-buffered window. Time is counted in retraces since the start and never wraps; the
      hardware counter shows Word of it. */
  class DbWindow {
    var now: nat                 // the time
    var lastVrtCntr: nat         // db_lastvrtcntr: counter value at last flip
    var displayBuffer: int
    var calls: nat               // calls made to the retrace function
    const swapInterval: nat      // db_swapint
    const hasCounter: bool       // db_vrtcntrp is not null
    const vrt: Retraces          // what the n-th call of the retrace function sees: a number of retraces, or failure
    ghost var lastRead: nat      // when lastVrtCntr was read
    ghost var flips: seq<nat>    // when each flip took place

    ghost predicate Valid()
      reads this
    {
      && swapInterval < WRAP && lastRead <= now && lastVrtCntr == Word(lastRead)
      && (hasCounter && flips != [] ==> flips[|flips| - 1] <= lastRead)
    }

    /** The loop and the check compare counter words; this is what they find out. */
    lemma WordsTell()
      requires Valid()
      ensures Word(now) < WRAP && lastVrtCntr < WRAP
      ensures Minus(Word(now), lastVrtCntr) < swapInterval <==> !Far(swapInterval, now - lastRead)
      ensures Far(swapInterval, now - lastRead) ==> now >= lastRead + swapInterval
      ensures now < lastRead + WRAP ==> (Far(swapInterval, now - lastRead) <==> now >= lastRead + swapInterval)
    {
      WordsApart(now, lastRead);
    }

    constructor (now: nat, swapInterval: nat, hasCounter: bool, vrt: Retraces)
      requires 0 < swapInterval < WRAP
      ensures Valid() && flips == [] && lastRead == now && this.hasCounter == hasCounter
      ensures this.swapInterval == swapInterval && this.vrt == vrt
    {
      this.now, this.swapInterval, this.hasCounter, this.vrt := now, swapInterval, hasCounter, vrt;
      lastVrtCntr, displayBuffer, calls := Word(now), 0, 0;
      lastRead, flips := now, [];
    }

    /** dga_db_interval_check. */
    method IntervalCheck() returns (due: bool)
      requires Valid()
      ensures !hasCounter ==> due
      ensures hasCounter && due ==> now >= lastRead + swapInterval
      ensures hasCounter && now < lastRead + WRAP ==> (due <==> now >= lastRead + swapInterval)
      ensures hasCounter ==> (due <==> Far(swapInterval, now - lastRead))
    {
      hide Word, Minus, Far;
      WordsTell();
      due := !(hasCounter && Minus(Word(now), lastVrtCntr) < swapInterval);
    }

    /** The wait ended because a call failed. */
    ghost predicate GaveUp(before: nat, after: nat) {
      after > before && vrt(after - 1) < 0
    }

    /** dga_db_interval_wait, given that most calls suffice. It gives up early only when a call fails. A
        missing retrace function is one that fails. */
    method IntervalWait(ghost most: nat)
      requires Valid() && (hasCounter ==> EndsWithin(vrt, swapInterval, calls, now - lastRead, most))
      modifies this`now, this`calls
      ensures Valid() && now >= old(now) && calls >= old(calls)
      ensures if hasCounter then (calls, now - lastRead) == Waited(vrt, swapInterval, old(calls), old(now) - lastRead, most)
              else now == old(now) && calls == old(calls)
      ensures hasCounter ==> Far(swapInterval, now - lastRead) || GaveUp(old(calls), calls)
      ensures hasCounter && Ticking(vrt, WRAP - swapInterval) ==>
        calls - old(calls) <= Missing(swapInterval, old(now) - lastRead)
    {
      hide Word, Minus, Far, Ticking, Missing;
      if hasCounter && Ticking(vrt, WRAP - swapInterval) { CallsMade(vrt, swapInterval, calls, now - lastRead, most); }
      if !hasCounter { return; }
      ghost var left := most;
      WordsTell();
      while Minus(Word(now), lastVrtCntr) < swapInterval
        invariant Valid() && now >= old(now) && calls >= old(calls)
        invariant Word(now) < WRAP && lastVrtCntr < WRAP
        invariant Minus(Word(now), lastVrtCntr) < swapInterval <==> !Far(swapInterval, now - lastRead)
        invariant EndsWithin(vrt, swapInterval, calls, now - lastRead, left)
        invariant Waited(vrt, swapInterval, calls, now - lastRead, left) == Waited(vrt, swapInterval, old(calls), old(now) - lastRead, most)
        decreases left
      {
        var t := vrt(calls);
        calls := calls + 1;
        if t < 0 { return; }
        now := now + t;
        WordsTell();
        left := left - 1;
      }
    }

    /** dga_db_display. Retraces may pass at three points: after the check, before the flip, and between
        the flip and the reading of the counter. Consecutive flips stay an interval apart however many
        retraces pass, even when the counter wraps in between. */
    method Display(buffer: int, pause1: nat, pause2: nat, pause3: nat)
      requires Valid() && (hasCounter && !Far(swapInterval, now - lastRead) ==> Ends(vrt, swapInterval, calls, now + pause1 - lastRead))
      modifies this
      ensures Valid() && displayBuffer == buffer && calls >= old(calls)
      ensures |flips| == |old(flips)| + 1 && flips[..|old(flips)|] == old(flips)
      ensures hasCounter ==> flips[|old(flips)|] >= old(lastRead) + swapInterval || GaveUp(old(calls), calls)
      ensures hasCounter && old(Spaced(flips, swapInterval)) ==> Spaced(flips, swapInterval) || GaveUp(old(calls), calls)
      ensures hasCounter ==> flips[|old(flips)|] <= lastRead == now
    {
      hide Word, Far, EndsWithin, Waited, Spaced, GaveUp;
      WordsTell();
      var due := IntervalCheck();
      now := now + pause1;
      if !due {
        ghost var most: nat :| hasCounter ==> EndsWithin(vrt, swapInterval, calls, now - lastRead, most);
        IntervalWait(most);
        WordsTell();
      }
      assert hasCounter ==> now >= lastRead + swapInterval || GaveUp(old(calls), calls);
      now := now + pause2;
      SpacedThen(flips, now, swapInterval);
      flips := flips + [now];
      now := now + pause3;
      if hasCounter {
        lastVrtCntr := Word(now);
        lastRead := now;
      }
      displayBuffer := buffer;
    }
  }

  /** One call of dga_db_display: the buffer, and the retraces that pass at its three points. */
  datatype Call = Call(gap: nat, buffer: int, pause1: nat, pause2: nat, pause3: nat)

  /** Over any run of flips, with any number of retraces before and during each, every two consecutive
      ones are an interval apart. */
  method Animate(w: DbWindow, calls: seq<Call>)
    requires w.Valid() && Patient(w.vrt, w.swapInterval) && NeverFails(w.vrt) && w.hasCounter && w.flips == []
    modifies w
    ensures w.Valid() && |w.flips| == |calls| && Spaced(w.flips, w.swapInterval)
    ensures calls != [] ==> w.displayBuffer == calls[|calls| - 1].buffer
  {
    for i := 0 to |calls|
      invariant w.Valid() && |w.flips| == i && Spaced(w.flips, w.swapInterval)
      invariant i > 0 ==> w.displayBuffer == calls[i - 1].buffer
    {
      var c := calls[i];
      w.now := w.now + c.gap;
      w.Display(c.buffer, c.pause1, c.pause2, c.pause3);
    }
  }
}
