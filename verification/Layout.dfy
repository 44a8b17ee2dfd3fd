/** Placing the outputs relative to each other, and the screen size that encloses them. */
module Layout {
  import opened Display
  import opened Machine

  /** An output set_positions has to place: enabled, with a relation to honour. */
  ghost predicate Chained(o: Output)
    reads o`relationChanged, o`mode
  {
    o.relationChanged && o.mode.Some?
  }

  ghost predicate Pending(o: Output)
    reads o`relationChanged, o`mode, o`placed
  {
    Chained(o) && !o.placed
  }

  /** The relation of o to its relative, between the positions they have now. */
  ghost predicate RelationHolds(o: Output)
    requires o.relativeTo != null && o.mode.Some? && o.relativeTo.mode.Some?
    reads o`x, o`y, o`mode, o`rotation, o`relation, o`relativeTo
    reads o.relativeTo`x, o.relativeTo`y, o.relativeTo`mode, o.relativeTo`rotation
  {
    var r := o.relativeTo;
    match o.relation
    case LeftOf => o.y == r.y && o.x + ModeWidth(o.mode.value, o.rotation) == r.x
    case RightOf => o.y == r.y && o.x == r.x + ModeWidth(r.mode.value, r.rotation)
    case Above => o.x == r.x && o.y + ModeHeight(o.mode.value, o.rotation) == r.y
    case Below => o.x == r.x && o.y == r.y + ModeHeight(r.mode.value, r.rotation)
    case SameAs => o.x == r.x && o.y == r.y
  }

  /** The same in pixels of the modes: a quarter turn swaps width and height, and of an unknown rotation
      nothing counts. */
  ghost predicate NextTo(o: Output)
    requires o.relativeTo != null && o.mode.Some? && o.relativeTo.mode.Some?
    reads o`x, o`y, o`mode, o`rotation, o`relation, o`relativeTo
    reads o.relativeTo`x, o.relativeTo`y, o.relativeTo`mode, o.relativeTo`rotation
  {
    var r := o.relativeTo;
    match o.relation
    case LeftOf =>
      && o.y == r.y && (o.rotation in {Rotate0, Rotate180} ==> o.x + o.mode.value.width == r.x)
      && (o.rotation in {Rotate90, Rotate270} ==> o.x + o.mode.value.height == r.x)
      && (o.rotation.RotateOther? ==> o.x == r.x)
    case RightOf =>
      && o.y == r.y && (r.rotation in {Rotate0, Rotate180} ==> o.x == r.x + r.mode.value.width)
      && (r.rotation in {Rotate90, Rotate270} ==> o.x == r.x + r.mode.value.height)
      && (r.rotation.RotateOther? ==> o.x == r.x)
    case Above =>
      && o.x == r.x && (o.rotation in {Rotate0, Rotate180} ==> o.y + o.mode.value.height == r.y)
      && (o.rotation in {Rotate90, Rotate270} ==> o.y + o.mode.value.width == r.y)
      && (o.rotation.RotateOther? ==> o.y == r.y)
    case Below =>
      && o.x == r.x && (r.rotation in {Rotate0, Rotate180} ==> o.y == r.y + r.mode.value.height)
      && (r.rotation in {Rotate90, Rotate270} ==> o.y == r.y + r.mode.value.width)
      && (r.rotation.RotateOther? ==> o.y == r.y)
    case SameAs => o.x == r.x && o.y == r.y
  }

  lemma RelationInPixels(o: Output)
    requires o.relativeTo != null && o.mode.Some? && o.relativeTo.mode.Some? && RelationHolds(o)
    ensures NextTo(o)
  {
  }

  /** The position of o is final: at the origin when its relative is off, otherwise where its
      relation puts it next to a relative that is final too. */
  ghost predicate Settled(o: Output)
    requires o.relativeTo != null && o.mode.Some?
    reads o, o.relativeTo
  {
    if o.relativeTo.mode == None then o.x == 0 && o.y == 0
    else o.relativeTo != o && RelationHolds(o) && !Pending(o.relativeTo)
  }

  /** Every output to be placed names a relative, and one that is itself to be placed is connected. */
  ghost predicate WellLinked(con: seq<Output>)
    reads set o | o in con, (set o | o in con && o.relativeTo != null :: o.relativeTo)
  {
    forall o :: o in con && Chained(o) ==>
      o.relativeTo != null && (Chained(o.relativeTo) ==> o.relativeTo in con)
  }

  // ---------- Which outputs get placed ----------

  /** For each output to be placed whose relative is itself to be placed, that relative. */
  ghost function WaitsFor(con: seq<Output>): (g: map<Output, Output>)
    reads (set o | o in con)`relationChanged, (set o | o in con)`mode, (set o | o in con)`relativeTo
    reads (set o | o in con && o.relativeTo != null :: o.relativeTo)`relationChanged
    reads (set o | o in con && o.relativeTo != null :: o.relativeTo)`mode
  {
    map o | o in con && Chained(o) && o.relativeTo != null && Chained(o.relativeTo) :: o.relativeTo
  }

  ghost function ChainedSet(con: seq<Output>): set<Output>
    reads (set o | o in con)`relationChanged, (set o | o in con)`mode
  {
    set o | o in con && Chained(o)
  }

  ghost function PlacedSet(con: seq<Output>): set<Output>
    reads (set o | o in con)`relationChanged, (set o | o in con)`mode, (set o | o in con)`placed
  {
    set o | o in con && Chained(o) && o.placed
  }

  /** The outputs placed once a round over the outputs to be placed has dealt with the first i of con. */
  ghost function After(con: seq<Output>, chained: set<Output>, g: map<Output, Output>, placed: set<Output>, i: nat)
    : set<Output>
    requires i <= |con|
  {
    if i == 0 then placed
    else
      var before := After(con, chained, g, placed, i - 1);
      if con[i - 1] in chained && (con[i - 1] in g ==> g[con[i - 1]] in before)
      then before + {con[i - 1]} else before
  }

  /** In a round that starts with these outputs placed, output number i waits for its relative. */
  ghost predicate WaitsAt(con: seq<Output>, chained: set<Output>, g: map<Output, Output>, placed: set<Output>, i: nat)
    requires i < |con|
  {
    con[i] in g && g[con[i]] !in After(con, chained, g, placed, i)
  }

  ghost predicate SomeoneWaits(con: seq<Output>, chained: set<Output>, g: map<Output, Output>, placed: set<Output>) {
    WaitsBefore(con, chained, g, placed, |con|)
  }

  ghost predicate WaitsBefore(con: seq<Output>, chained: set<Output>, g: map<Output, Output>, placed: set<Output>, n: nat)
    requires n <= |con|
  {
    exists i :: 0 <= i < n && WaitsAt(con, chained, g, placed, i)
  }

  /** Somebody is placed, or placed once more. */
  ghost predicate SomeoneIsSet(con: seq<Output>, chained: set<Output>, g: map<Output, Output>, placed: set<Output>) {
    SetBefore(con, chained, g, placed, |con|)
  }

  ghost predicate SetBefore(con: seq<Output>, chained: set<Output>, g: map<Output, Output>, placed: set<Output>, n: nat)
    requires n <= |con|
  {
    exists i :: 0 <= i < n && con[i] in chained && !WaitsAt(con, chained, g, placed, i)
  }

  /** One more output of a round. */
  lemma RoundStep(con: seq<Output>, chained: set<Output>, g: map<Output, Output>, placed: set<Output>, i: nat)
    requires i < |con|
    ensures var waits := WaitsAt(con, chained, g, placed, i); var isSet := con[i] in chained && !waits;
      && (WaitsBefore(con, chained, g, placed, i + 1) <==> WaitsBefore(con, chained, g, placed, i) || waits)
      && (SetBefore(con, chained, g, placed, i + 1) <==> SetBefore(con, chained, g, placed, i) || isSet)
      && After(con, chained, g, placed, i + 1) == After(con, chained, g, placed, i) + (if isSet then {con[i]} else {})
  {
  }

  lemma RoundStart(con: seq<Output>, chained: set<Output>, g: map<Output, Output>, placed: set<Output>)
    ensures !WaitsBefore(con, chained, g, placed, 0) && !SetBefore(con, chained, g, placed, 0)
    ensures After(con, chained, g, placed, 0) == placed
  {
  }

  /** How the placement loop stands after at most n rounds. */
  datatype Progress = Finished | Fatal | Running(placed: set<Output>)

  ghost function Rounds(con: seq<Output>, chained: set<Output>, g: map<Output, Output>, placed: set<Output>, n: nat)
    : Progress
    decreases n
  {
    if n == 0 then Running(placed)
    else if !SomeoneWaits(con, chained, g, placed) then Finished
    else if !SomeoneIsSet(con, chained, g, placed) then Fatal
    else Rounds(con, chained, g, After(con, chained, g, placed, |con|), n - 1)
  }

  /** A non-empty set of outputs each waiting for a member: some output is, through its
      relatives, relative to itself. */
  ghost predicate Cycle(g: map<Output, Output>, s: set<Output>) {
    s != {} && forall o :: o in s ==> o in g && g[o] in s
  }

  /** There is no cycle among the outputs not placed. */
  ghost predicate Acyclic(g: map<Output, Output>, placed: set<Output>) {
    forall s: set<Output> :: s <= g.Keys && s !! placed ==> !Cycle(g, s)
  }

  /** The outputs to be placed are connected, and wait only for each other. */
  ghost predicate Linked(con: seq<Output>, chained: set<Output>, g: map<Output, Output>) {
    g.Keys <= chained && (forall o :: o in g ==> g[o] in chained) && forall o :: o in chained ==> o in con
  }

  lemma {:induction false} AfterGrows(con: seq<Output>, chained: set<Output>, g: map<Output, Output>,
                                      placed: set<Output>, i: nat, j: nat)
    requires i <= j <= |con|
    ensures After(con, chained, g, placed, i) <= After(con, chained, g, placed, j)
    decreases j
  {
    if i < j { AfterGrows(con, chained, g, placed, i, j - 1); }
  }

  /** Without a cycle, a round that leaves somebody waiting places somebody new. */
  lemma RoundProgresses(con: seq<Output>, chained: set<Output>, g: map<Output, Output>, placed: set<Output>)
    requires Acyclic(g, placed) && Linked(con, chained, g) && !(chained <= placed)
    ensures placed < After(con, chained, g, placed, |con|)
  {
    var pending := chained - placed;
    AfterGrows(con, chained, g, placed, 0, |con|);
    if pending <= g.Keys { assert !Cycle(g, pending); }
    var o :| o in pending && !(o in g && g[o] in pending);
    var i :| 0 <= i < |con| && con[i] == o;
    AfterGrows(con, chained, g, placed, 0, i);
    assert o in After(con, chained, g, placed, i + 1);
    AfterGrows(con, chained, g, placed, i + 1, |con|);
  }

  /** Whoever comes new in a round was set in it. */
  lemma {:induction false} NewIsSet(con: seq<Output>, chained: set<Output>, g: map<Output, Output>,
                                    placed: set<Output>, i: nat)
    requires i <= |con| && After(con, chained, g, placed, i) != placed
    ensures SomeoneIsSet(con, chained, g, placed)
  {
    if i > 0 && After(con, chained, g, placed, i - 1) == After(con, chained, g, placed, i) {
      NewIsSet(con, chained, g, placed, i - 1);
    } else if i > 0 {
      assert !WaitsAt(con, chained, g, placed, i - 1);
    }
  }

  /** A cycle none of whose members is placed stays that way, and keeps somebody waiting. */
  lemma {:induction false} CycleStays(con: seq<Output>, chained: set<Output>, g: map<Output, Output>,
                                      placed: set<Output>, s: set<Output>, i: nat)
    requires i <= |con| && Cycle(g, s) && s !! placed
    ensures s !! After(con, chained, g, placed, i)
  {
    if i > 0 { CycleStays(con, chained, g, placed, s, i - 1); }
  }

  lemma CycleWaits(con: seq<Output>, chained: set<Output>, g: map<Output, Output>, placed: set<Output>, s: set<Output>)
    requires Linked(con, chained, g) && Cycle(g, s) && s !! placed
    ensures SomeoneWaits(con, chained, g, placed)
  {
    var o :| o in s;
    assert o in con;
    var i :| 0 <= i < |con| && con[i] == o;
    CycleStays(con, chained, g, placed, s, i);
    assert WaitsAt(con, chained, g, placed, i);
  }

  /** More placed to begin with means more placed at every point of a round. */
  lemma {:induction false} AfterMonotonic(con: seq<Output>, chained: set<Output>, g: map<Output, Output>,
                                          p: set<Output>, q: set<Output>, i: nat)
    requires i <= |con| && p <= q
    ensures After(con, chained, g, p, i) <= After(con, chained, g, q, i)
  {
    if i > 0 { AfterMonotonic(con, chained, g, p, q, i - 1); }
  }

  lemma SetAgain(con: seq<Output>, chained: set<Output>, g: map<Output, Output>, p: set<Output>, q: set<Output>)
    requires p <= q && SomeoneIsSet(con, chained, g, p)
    ensures SomeoneIsSet(con, chained, g, q)
  {
    var i :| 0 <= i < |con| && con[i] in chained && !WaitsAt(con, chained, g, p, i);
    AfterMonotonic(con, chained, g, p, q, i);
    assert !WaitsAt(con, chained, g, q, i);
  }

  /** With a cycle of unplaced outputs the loop never finishes; and it is fatal in its first round or
      never: once somebody can be set, somebody can in every later round. */
  lemma {:induction false} CycleNeverFinishes(con: seq<Output>, chained: set<Output>, g: map<Output, Output>,
                                              placed: set<Output>, s: set<Output>, n: nat)
    requires Linked(con, chained, g) && Cycle(g, s) && s !! placed
    ensures !Rounds(con, chained, g, placed, n).Finished?
    ensures n > 0 ==> (Rounds(con, chained, g, placed, n).Fatal? <==> !SomeoneIsSet(con, chained, g, placed))
    decreases n
  {
    if n > 0 {
      CycleWaits(con, chained, g, placed, s);
      CycleStays(con, chained, g, placed, s, |con|);
      if SomeoneIsSet(con, chained, g, placed) {
        var next := After(con, chained, g, placed, |con|);
        AfterGrows(con, chained, g, placed, 0, |con|);
        SetAgain(con, chained, g, placed, next);
        CycleNeverFinishes(con, chained, g, next, s, n - 1);
      }
    }
  }

  /** Without one it finishes, after at most one round for each output to be placed and one more. */
  lemma {:induction false} AcyclicFinishes(con: seq<Output>, chained: set<Output>, g: map<Output, Output>, placed: set<Output>)
    requires Linked(con, chained, g) && Acyclic(g, placed)
    ensures Rounds(con, chained, g, placed, |chained - placed| + 1).Finished?
    decreases |chained - placed|
  {
    if SomeoneWaits(con, chained, g, placed) {
      var i :| 0 <= i < |con| && WaitsAt(con, chained, g, placed, i);
      AfterGrows(con, chained, g, placed, 0, i);
      RoundProgresses(con, chained, g, placed);
      NewIsSet(con, chained, g, placed, |con|);
      var next := After(con, chained, g, placed, |con|);
      AfterChained(con, chained, g, placed, |con|);
      var o :| o in next && o !in placed;
      assert chained - next <= chained - placed - {o};
      SmallerSet(chained - next, chained - placed, o);
      AcyclicFinishes(con, chained, g, next);
      FinishedStays(con, chained, g, next, |chained - next| + 1, |chained - placed|);
    }
  }

  lemma {:induction false} AfterChained(con: seq<Output>, chained: set<Output>, g: map<Output, Output>,
                                        placed: set<Output>, i: nat)
    requires i <= |con|
    ensures After(con, chained, g, placed, i) <= placed + chained
  {
    if i > 0 { AfterChained(con, chained, g, placed, i - 1); }
  }

  lemma SmallerSet(s: set<Output>, t: set<Output>, o: Output)
    requires s <= t - {o} && o in t
    ensures |s| < |t|
  {
    assert |t - {o}| == |t| - 1;
    assert s + ((t - {o}) - s) == t - {o};
  }

  lemma {:induction false} FinishedStays(con: seq<Output>, chained: set<Output>, g: map<Output, Output>,
                                         placed: set<Output>, m: nat, n: nat)
    requires m <= n && Rounds(con, chained, g, placed, m).Finished?
    ensures Rounds(con, chained, g, placed, n).Finished?
    decreases m
  {
    if SomeoneWaits(con, chained, g, placed) {
      FinishedStays(con, chained, g, After(con, chained, g, placed, |con|), m - 1, n - 1);
    }
  }

  /** The placement loop finishes exactly when no unplaced output is relative to itself. */
  lemma FinishesIffAcyclic(con: seq<Output>, chained: set<Output>, g: map<Output, Output>, placed: set<Output>)
    requires Linked(con, chained, g)
    ensures (exists n: nat :: Rounds(con, chained, g, placed, n).Finished?) <==> Acyclic(g, placed)
  {
    hide Rounds, Cycle;
    if Acyclic(g, placed) {
      AcyclicFinishes(con, chained, g, placed);
    } else {
      var s: set<Output> :| s <= g.Keys && s !! placed && Cycle(g, s);
      forall n: nat ensures !Rounds(con, chained, g, placed, n).Finished? {
        CycleNeverFinishes(con, chained, g, placed, s, n);
      }
    }
  }

  // ---------- Where they get placed ----------

  ghost predicate PlacedAreSettled(con: seq<Output>)
    requires WellLinked(con)
    reads set o | o in con, (set o | o in con && o.relativeTo != null :: o.relativeTo)
  {
    forall o :: o in con && Chained(o) && o.placed ==> Settled(o)
  }

  /** Places one output next to its relative. */
  method PlaceOne(o: Output)
    requires Chained(o) && o.relativeTo != null && o.relativeTo.mode.Some? && o.relativeTo != o
    modifies o`x, o`y, o`placed, o.relativeTo`placed
    ensures RelationHolds(o) && o.placed && o.relativeTo.placed
  {
    var r := o.relativeTo;
    match o.relation {
      case LeftOf =>
        o.y := r.y;
        o.x := r.x - ModeWidth(o.mode.value, o.rotation);
      case RightOf =>
        o.y := r.y;
        o.x := r.x + ModeWidth(r.mode.value, r.rotation);
      case Above =>
        o.x := r.x;
        o.y := r.y - ModeHeight(o.mode.value, o.rotation);
      case Below =>
        o.x := r.x;
        o.y := r.y + ModeHeight(r.mode.value, r.rotation);
      case SameAs =>
        o.x := r.x;
        o.y := r.y;
    }
    o.placed := true;
    r.placed := true;
  }

  /** A relation determines the position: placing a settled output again does not move it. */
  twostate lemma RelationDetermines(o: Output)
    requires o.relativeTo != null && o.relativeTo != o && o.mode.Some? && o.relativeTo.mode.Some?
    requires old(o.relativeTo) == o.relativeTo && old(o.mode) == o.mode && unchanged(o`relation, o`rotation)
    requires unchanged(o.relativeTo`x, o.relativeTo`y, o.relativeTo`mode, o.relativeTo`rotation)
    requires old(RelationHolds(o)) && RelationHolds(o)
    ensures o.x == old(o.x) && o.y == old(o.y)
  {
  }

  /** What the body of the placement loop does for one output; waits says its relative is pending. */
  method PlaceIfPossible(con: seq<Output>, o: Output) returns (anySet: bool, waits: bool)
    requires o in con && WellLinked(con) && PlacedAreSettled(con)
    modifies o`x, o`y, o`placed, (set p | p in con && p.relativeTo != null :: p.relativeTo)`placed
    ensures WellLinked(con) && PlacedAreSettled(con)
    ensures old(o.placed) || !Chained(o) ==> o.x == old(o.x) && o.y == old(o.y)
    ensures forall p :: p in con && old(p.placed) ==> p.placed
    ensures waits <==> o in WaitsFor(con) && WaitsFor(con)[o] !in old(PlacedSet(con))
    ensures anySet <==> Chained(o) && !waits
    ensures PlacedSet(con) == old(PlacedSet(con)) + if anySet then {o} else {}
  {
    hide RelationHolds;
    anySet, waits := false, false;
    if o.relationChanged && o.mode.Some? {
      var r := o.relativeTo;
      if r.mode == None {
        o.x, o.y, o.placed := 0, 0, true;
        anySet := true;
      } else if r.relationChanged && !r.placed {
        waits := true;
      } else {
        PlaceOne(o);
        if old(o.placed) { RelationDetermines(o); }
        anySet := true;
      }
    }
  }

  lemma RelationsLinked(con: seq<Output>)
    requires WellLinked(con)
    ensures Linked(con, ChainedSet(con), WaitsFor(con))
  {
  }

  /** One pass of the placement loop of set_positions. */
  method Round(con: seq<Output>) returns (anySet: bool, keepGoing: bool)
    requires WellLinked(con) && PlacedAreSettled(con)
    modifies (set o | o in con)`x, (set o | o in con)`y, (set o | o in con)`placed
    modifies (set o | o in con && o.relativeTo != null :: o.relativeTo)`placed
    ensures WellLinked(con) && PlacedAreSettled(con)
    ensures forall o :: o in con && (old(o.placed) || !Chained(o)) ==> o.x == old(o.x) && o.y == old(o.y)
    ensures forall o :: o in con && old(o.placed) ==> o.placed
    ensures PlacedSet(con) == After(con, ChainedSet(con), WaitsFor(con), old(PlacedSet(con)), |con|)
    ensures keepGoing <==> SomeoneWaits(con, ChainedSet(con), WaitsFor(con), old(PlacedSet(con)))
    ensures anySet <==> SomeoneIsSet(con, ChainedSet(con), WaitsFor(con), old(PlacedSet(con)))
  {
    hide WellLinked, PlacedAreSettled, PlacedSet, WaitsBefore, SetBefore, After;
    anySet, keepGoing := false, false;
    ghost var chained, g, start := ChainedSet(con), WaitsFor(con), PlacedSet(con);
    RoundStart(con, chained, g, start);
    for i := 0 to |con|
      invariant WellLinked(con) && PlacedAreSettled(con)
      invariant forall o :: o in con && (old(o.placed) || !Chained(o)) ==> o.x == old(o.x) && o.y == old(o.y)
      invariant forall o :: o in con && old(o.placed) ==> o.placed
      invariant PlacedSet(con) == After(con, chained, g, start, i)
      invariant keepGoing <==> WaitsBefore(con, chained, g, start, i)
      invariant anySet <==> SetBefore(con, chained, g, start, i)
    {
      assert con[i] in con;
      RoundStep(con, chained, g, start, i);
      var set1, waits := PlaceIfPossible(con, con[i]);
      anySet, keepGoing := anySet || set1, keepGoing || waits;
    }
  }

  ghost predicate Distinct(con: seq<Output>) {
    forall i, j :: 0 <= i < j < |con| ==> con[i] != con[j]
  }

  /** Where normalisation brings the least coordinate: to the origin, unless all exceed 32768. */
  ghost predicate AtOrigin(con: seq<Output>, dx: int, dy: int)
    reads set o | o in con
  {
    && (forall o :: o in con && o.mode.Some? ==> o.x >= 0 && o.y >= 0)
    && (forall p :: p in con && p.mode.Some? ==>
          && ((exists o :: o in con && o.mode.Some? && o.x == 0)
              || (dx == -32768 && forall o :: o in con && o.mode.Some? ==> o.x > 0))
          && ((exists o :: o in con && o.mode.Some? && o.y == 0)
              || (dy == -32768 && forall o :: o in con && o.mode.Some? ==> o.y > 0)))
  }

  /** The second half of set_positions: one translation of all enabled outputs. */
  method Normalize(con: seq<Output>) returns (ghost dx: int, ghost dy: int)
    requires Distinct(con)
    modifies (set o | o in con)`x, (set o | o in con)`y, (set o | o in con)`placed
    ensures forall o :: o in con ==>
      if o.mode.Some? then o.x == old(o.x) + dx && o.y == old(o.y) + dy
      else o.x == old(o.x) && o.y == old(o.y)
    ensures AtOrigin(con, dx, dy)
  {
    var minX, minY := 32768, 32768;
    for i := 0 to |con|
      invariant minX <= 32768 && minY <= 32768
      invariant forall o :: o in con[..i] && o.mode.Some? ==> minX <= o.x && minY <= o.y
      invariant minX == 32768 || exists o :: o in con[..i] && o.mode.Some? && o.x == minX
      invariant minY == 32768 || exists o :: o in con[..i] && o.mode.Some? && o.y == minY
    {
      if con[i].mode.Some? {
        if con[i].x < minX { minX := con[i].x; }
        if con[i].y < minY { minY := con[i].y; }
      }
    }
    assert con[..|con|] == con;
    dx, dy := -minX, -minY;
    if minX != 0 || minY != 0 {
      for i := 0 to |con|
        invariant forall j :: 0 <= j < |con| ==>
          if con[j].mode.Some? && j < i then con[j].x == old(con[j].x) - minX && con[j].y == old(con[j].y) - minY
          else con[j].x == old(con[j].x) && con[j].y == old(con[j].y)
      {
        var o := con[i];
        if o.mode.Some? {
          o.x := o.x - minX;
          o.y := o.y - minY;
          o.placed := true;
        }
      }
    }
    assert forall o :: o in con ==> exists j :: 0 <= j < |con| && con[j] == o;
  }

  /** set_positions: every output ends where its relation puts it, up to one translation (dx, dy)
      that brings the least enabled x and y to 0. An output relative to one that is off goes to (dx, dy). */
  method SetPositions(con: seq<Output>) returns (ghost dx: int, ghost dy: int)
    requires Distinct(con) && WellLinked(con) && Acyclic(WaitsFor(con), PlacedSet(con))
    requires forall o :: o in con && Chained(o) ==> !o.placed
    modifies (set o | o in con)`x, (set o | o in con)`y, (set o | o in con)`placed
    modifies (set o | o in con && o.relativeTo != null :: o.relativeTo)`placed
    ensures WellLinked(con)
    ensures forall o :: o in con && Chained(o) && o.relativeTo.mode.Some? && o.relativeTo in con ==>
      RelationHolds(o) && NextTo(o)
    ensures forall o :: o in con && Chained(o) && o.relativeTo.mode == None ==> o.x == dx && o.y == dy
    ensures forall o :: o in con && o.mode.Some? && !Chained(o) ==> o.x == old(o.x) + dx && o.y == old(o.y) + dy
    ensures forall o :: o in con && o.mode == None ==> o.x == old(o.x) && o.y == old(o.y)
    ensures AtOrigin(con, dx, dy)
  {
    Place(con);
    label placed:
    dx, dy := Normalize(con);
    forall o | o in con && Chained(o) && o.relativeTo.mode.Some? && o.relativeTo in con
      ensures RelationHolds(o) && NextTo(o)
    {
      assert old@placed(Settled(o));
      RelationInPixels(o);
    }
    forall o | o in con && Chained(o) && o.relativeTo.mode == None ensures o.x == dx && o.y == dy {
      assert old@placed(Settled(o));
    }
  }

  /** The first half of set_positions: rounds until nobody waits. The fatal exit is never reached. */
  method Place(con: seq<Output>)
    requires WellLinked(con) && Acyclic(WaitsFor(con), PlacedSet(con))
    requires forall o :: o in con && Chained(o) ==> !o.placed
    modifies (set o | o in con)`x, (set o | o in con)`y, (set o | o in con)`placed
    modifies (set o | o in con && o.relativeTo != null :: o.relativeTo)`placed
    ensures WellLinked(con)
    ensures forall o :: o in con && Chained(o) ==> Settled(o)
    ensures forall o :: o in con && !Chained(o) ==> o.x == old(o.x) && o.y == old(o.y)
  {
    hide Settled, After, SomeoneWaits, SomeoneIsSet;
    while true
      invariant WellLinked(con) && PlacedAreSettled(con) && Acyclic(WaitsFor(con), PlacedSet(con))
      invariant forall o :: o in con && !Chained(o) ==> o.x == old(o.x) && o.y == old(o.y)
      decreases ChainedSet(con) - PlacedSet(con)
    {
      ghost var start := PlacedSet(con);
      RelationsLinked(con);
      RoundGoesOn(con, ChainedSet(con), WaitsFor(con), start);
      var anySet, keepGoing := Round(con);
      if !keepGoing { break; }
      if !anySet { assert false; }
    }
    forall o | o in con && Chained(o) ensures Settled(o) {
      assert o in PlacedSet(con);
    }
  }

  /** What a round does where there is no cycle: it places everybody, or somebody new. */
  lemma RoundGoesOn(con: seq<Output>, chained: set<Output>, g: map<Output, Output>, placed: set<Output>)
    requires Linked(con, chained, g) && Acyclic(g, placed)
    ensures var next := After(con, chained, g, placed, |con|);
      && placed <= next && Acyclic(g, next)
      && (if SomeoneWaits(con, chained, g, placed) then SomeoneIsSet(con, chained, g, placed) && chained - next < chained - placed
          else chained <= next)
  {
    var next := After(con, chained, g, placed, |con|);
    AfterGrows(con, chained, g, placed, 0, |con|);
    if SomeoneWaits(con, chained, g, placed) {
      var i :| 0 <= i < |con| && WaitsAt(con, chained, g, placed, i);
      AfterGrows(con, chained, g, placed, 0, i);
      RoundProgresses(con, chained, g, placed);
      NewIsSet(con, chained, g, placed, |con|);
      AfterChained(con, chained, g, placed, |con|);
    } else {
      forall o | o in chained ensures o in next {
        var i :| 0 <= i < |con| && con[i] == o;
        assert !WaitsAt(con, chained, g, placed, i);
        assert o in After(con, chained, g, placed, i + 1);
        AfterGrows(con, chained, g, placed, i + 1, |con|);
      }
    }
  }

  /** The placement loop, stopped after a number of rounds: it stands where Rounds says, so that what is
      proved of Rounds for every number, cycles included, is true of the loop. */
  method PlaceFor(con: seq<Output>, rounds: nat) returns (finished: bool, fatal: bool)
    requires WellLinked(con) && PlacedAreSettled(con)
    modifies (set o | o in con)`x, (set o | o in con)`y, (set o | o in con)`placed
    modifies (set o | o in con && o.relativeTo != null :: o.relativeTo)`placed
    ensures WellLinked(con) && PlacedAreSettled(con)
    ensures Rounds(con, ChainedSet(con), WaitsFor(con), old(PlacedSet(con)), rounds) ==
      if finished then Finished else if fatal then Fatal else Running(PlacedSet(con))
  {
    hide WellLinked, PlacedAreSettled, PlacedSet, SomeoneWaits, SomeoneIsSet;
    ghost var chained, g, start := ChainedSet(con), WaitsFor(con), PlacedSet(con);
    for i := 0 to rounds
      invariant WellLinked(con) && PlacedAreSettled(con)
      invariant Rounds(con, chained, g, start, rounds) == Rounds(con, chained, g, PlacedSet(con), rounds - i)
    {
      var anySet, keepGoing := Round(con);
      if !keepGoing { return true, false; }
      if !anySet { return false, true; }
    }
    return false, false;
  }

  /** Two outputs relative to each other, and a third relative to one that is off: the third counts as
      placed anew in every round, so that the loop neither finishes nor takes the fatal exit. */
  method RunsForEver() returns (con: seq<Output>)
    ensures WellLinked(con) && PlacedAreSettled(con) && Distinct(con)
    ensures forall n: nat :: Rounds(con, ChainedSet(con), WaitsFor(con), PlacedSet(con), n).Running?
  {
    var a := Related();
    var b := Related();
    var c := Related();
    var off := new Output(4, [], []);
    a.relativeTo, b.relativeTo, c.relativeTo := b, a, off;
    off.mode, off.relationChanged := None, false;
    con := [a, b, c];
    assert [a, b] + [c] == con && {a, b} + (set o | o in [c]) == {a, b, c};
    hide *;
    TwoInACircle(a, b, [c]);
    RoundsForEver(a, b, c);
  }

  /** Two outputs relative to each other, with or without a third that is relative to one that is off. */
  lemma TwoInACircle(a: Output, b: Output, more: seq<Output>)
    requires |more| <= 1 && a != b && a !in more && b !in more
    requires Pending(a) && Pending(b) && a.relativeTo == b && b.relativeTo == a
    requires forall c :: c in more ==> Pending(c) && c.relativeTo != null && c.relativeTo.mode == None
    ensures var con := [a, b] + more;
      && WellLinked(con) && PlacedAreSettled(con) && Distinct(con) && PlacedSet(con) == {}
      && ChainedSet(con) == {a, b} + (set c | c in more) && WaitsFor(con) == map[a := b, b := a]
  {
    hide RelationHolds;
    var con := [a, b] + more;
    assert forall o :: o in con <==> o == a || o == b || o in more;
  }

  /** With only those two the first round is fatal. */
  method FatalAtOnce() returns (con: seq<Output>)
    ensures WellLinked(con) && PlacedAreSettled(con) && Distinct(con)
    ensures forall n: nat :: n > 0 ==> Rounds(con, ChainedSet(con), WaitsFor(con), PlacedSet(con), n).Fatal?
  {
    var a := Related();
    var b := Related();
    a.relativeTo, b.relativeTo := b, a;
    con := [a, b];
    assert [a, b] + [] == con && {a, b} + (set o: Output | o in []) == {a, b};
    hide *;
    TwoInACircle(a, b, []);
    FatalRounds(a, b);
  }

  /** A new enabled output that is to the right of something. */
  method Related() returns (o: Output)
    ensures fresh(o) && o.mode == Some(Mode(1, 100, 100)) && o.relationChanged && !o.placed
  {
    o := new Output(1, [], []);
    o.mode, o.relation, o.relationChanged, o.placed := Some(Mode(1, 100, 100)), RightOf, true, false;
  }

  lemma RoundsForEver(a: Output, b: Output, c: Output)
    requires a != b && a != c && b != c
    ensures forall n: nat :: Rounds([a, b, c], {a, b, c}, map[a := b, b := a], {}, n).Running?
  {
    var con, chained, g := [a, b, c], {a, b, c}, map[a := b, b := a];
    assert con[0] == a && con[1] == b && con[2] == c && !WaitsAt(con, chained, g, {}, 2);
    forall n: nat ensures Rounds(con, chained, g, {}, n).Running? {
      CycleNeverFinishes(con, chained, g, {}, {a, b}, n);
    }
  }

  lemma FatalRounds(a: Output, b: Output)
    requires a != b
    ensures forall n: nat :: n > 0 ==> Rounds([a, b], {a, b}, map[a := b, b := a], {}, n).Fatal?
  {
    var con, chained, g := [a, b], {a, b}, map[a := b, b := a];
    assert After(con, chained, g, {}, 0) == {} && WaitsAt(con, chained, g, {}, 0);
    assert After(con, chained, g, {}, 1) == {} && WaitsAt(con, chained, g, {}, 1);
    forall n: nat | n > 0 ensures Rounds(con, chained, g, {}, n).Fatal? {
      CycleNeverFinishes(con, chained, g, {}, {a, b}, n);
    }
  }

  // ---------- The screen size ----------

  class Screen {
    var fbWidth: int
    var fbHeight: int
    const minWidth: int
    const minHeight: int
    const maxWidth: int
    const maxHeight: int

    constructor (minWidth: int, minHeight: int, maxWidth: int, maxHeight: int)
      ensures fbWidth == fbHeight == 0 && this.minWidth == minWidth && this.minHeight == minHeight
      ensures this.maxWidth == maxWidth && this.maxHeight == maxHeight
    {
      this.minWidth, this.minHeight, this.maxWidth, this.maxHeight := minWidth, minHeight, maxWidth, maxHeight;
      fbWidth, fbHeight := 0, 0;
    }
  }

  /** w by h is the least box at the origin that encloses every enabled output of con. */
  ghost predicate TightBox(con: seq<Output>, w: int, h: int)
    reads (set o | o in con)`mode, (set o | o in con)`x, (set o | o in con)`y, (set o | o in con)`rotation
  {
    && w >= 0 && h >= 0
    && (forall o :: o in con && o.mode.Some? ==>
          o.x + ModeWidth(o.mode.value, o.rotation) <= w && o.y + ModeHeight(o.mode.value, o.rotation) <= h)
    && (w == 0 || exists o :: o in con && o.mode.Some? && o.x + ModeWidth(o.mode.value, o.rotation) == w)
    && (h == 0 || exists o :: o in con && o.mode.Some? && o.y + ModeHeight(o.mode.value, o.rotation) == h)
  }

  lemma EmptyBox()
    ensures TightBox([], 0, 0)
  {
  }

  lemma BoxGrows(con: seq<Output>, i: nat, w: int, h: int)
    requires i < |con| && TightBox(con[..i], w, h)
    ensures var o := con[i];
      if o.mode.Some? then
        TightBox(con[..i + 1], Max(o.x + ModeWidth(o.mode.value, o.rotation), w),
                 Max(o.y + ModeHeight(o.mode.value, o.rotation), h))
      else TightBox(con[..i + 1], w, h)
  {
    hide ModeWidth, ModeHeight;
    assert con[..i + 1] == con[..i] + [con[i]];
  }

  /** In pixels of the modes: the picture of o lies within w by h. */
  ghost predicate Covered(o: Output, w: int, h: int)
    requires o.mode.Some?
    reads o`mode, o`x, o`y, o`rotation
  {
    var m := o.mode.value;
    && (o.rotation in {Rotate0, Rotate180} ==> o.x + m.width <= w && o.y + m.height <= h)
    && (o.rotation in {Rotate90, Rotate270} ==> o.x + m.height <= w && o.y + m.width <= h)
    && (o.rotation.RotateOther? ==> o.x <= w && o.y <= h)
  }

  /** And w by h is no more than it needs. */
  ghost predicate Covering(o: Output, w: int, h: int)
    requires o.mode.Some?
    reads o`mode, o`x, o`y, o`rotation
  {
    var m := o.mode.value;
    && (o.rotation in {Rotate0, Rotate180} ==> w == Max(o.x + m.width, 0) && h == Max(o.y + m.height, 0))
    && (o.rotation in {Rotate90, Rotate270} ==> w == Max(o.x + m.height, 0) && h == Max(o.y + m.width, 0))
    && (o.rotation.RotateOther? ==> w == Max(o.x, 0) && h == Max(o.y, 0))
  }

  /** The box is counted in those pixels. */
  lemma BoxInPixels(con: seq<Output>, w: int, h: int)
    requires TightBox(con, w, h)
    ensures forall o, u, v :: o in con && o.mode.Some? && w <= u && h <= v ==> Covered(o, u, v)
    ensures |con| == 1 && con[0].mode.Some? ==> Covering(con[0], w, h)
  {
  }

  method SetScreenSize(con: seq<Output>, screen: Screen) returns (ok: bool, ghost w: int, ghost h: int)
    modifies screen
    ensures TightBox(con, w, h)
    ensures ok <==> w <= screen.maxWidth && h <= screen.maxHeight
    ensures screen.fbWidth == (if ok then Max(w, screen.minWidth) else w)
    ensures screen.fbHeight == (if ok then Max(h, screen.minHeight) else h)
    ensures ok ==> forall o :: o in con && o.mode.Some? ==> Covered(o, screen.fbWidth, screen.fbHeight)
    ensures |con| == 1 && con[0].mode.Some? ==> Covering(con[0], w, h)
  {
    hide TightBox, Covered, Covering;
    screen.fbWidth, screen.fbHeight := 0, 0;
    EmptyBox();
    for i := 0 to |con|
      invariant TightBox(con[..i], screen.fbWidth, screen.fbHeight)
    {
      var o := con[i];
      BoxGrows(con, i, screen.fbWidth, screen.fbHeight);
      if o.mode.Some? {
        var right, bottom := o.x + ModeWidth(o.mode.value, o.rotation), o.y + ModeHeight(o.mode.value, o.rotation);
        if right > screen.fbWidth { screen.fbWidth := right; }
        if bottom > screen.fbHeight { screen.fbHeight := bottom; }
      }
    }
    assert con[..|con|] == con;
    w, h := screen.fbWidth, screen.fbHeight;
    BoxInPixels(con, w, h);
    if screen.fbWidth > screen.maxWidth || screen.fbHeight > screen.maxHeight { return false, w, h; }
    if screen.fbWidth < screen.minWidth { screen.fbWidth := screen.minWidth; }
    if screen.fbHeight < screen.minHeight { screen.fbHeight := screen.minHeight; }
    ok := true;
  }
}
