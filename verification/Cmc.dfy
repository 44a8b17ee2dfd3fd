/** cmap_compact: recording the workspace colors of a colormap, and allocating them again. */
module Cmc {
  import opened CellPool
  import opened Machine

  /** One request of the grab phase: n private cells, written behind the first total ones of the
      buffer, or nothing if the server has not that many. */
  method GrabSome(server: Server, n: nat, buffer: array<nat>, total: nat) returns (ok: bool)
    requires total + |FreeCells(server.cells)| <= buffer.Length
    modifies server, buffer
    ensures ok <==> n <= |FreeCells(old(server.cells))|
    ensures !ok ==> server.cells == old(server.cells) && buffer[..] == old(buffer[..])
    ensures ok ==> total + n <= buffer.Length && buffer[..total] == old(buffer[..total])
    ensures ok ==> Distinct(buffer[total..total + n]) && Taken(old(server.cells), server.cells, buffer[total..total + n])
    ensures ok ==> |FreeCells(server.cells)| == |FreeCells(old(server.cells))| - n
  {
    ghost var was := server.cells;
    var pixels;
    ok, pixels := server.AllocColorCells(n);
    if !ok { return; }
    DistinctSize(pixels);
    assert Elements(pixels) <= FreeCells(was);
    CopyInto(buffer, total, pixels);
  }

  method CopyInto(buffer: array<nat>, at: nat, pixels: seq<nat>)
    requires at + |pixels| <= buffer.Length
    modifies buffer
    ensures buffer[..at] == old(buffer[..at]) && buffer[at..at + |pixels|] == pixels
  {
    for i := 0 to |pixels|
      invariant buffer[..at] == old(buffer[..at])
      invariant buffer[at..at + i] == pixels[..i]
    {
      buffer[at + i] := pixels[i];
    }
  }

  /** The grab phase of cmc_alloc: ask for halving numbers of private cells until none is left. The
      buffer has one place per cell of the colormap and is never overrun. */
  method GrabAll(server: Server, ntotal: nat, buffer: array<nat>) returns (totalAlloc: nat)
    requires PowerOfTwo(ntotal) && |server.cells| == ntotal == buffer.Length
    modifies server, buffer
    ensures totalAlloc == |FreeCells(old(server.cells))| <= buffer.Length
    ensures FreeCells(server.cells) == {}
    ensures Distinct(buffer[..totalAlloc]) && Taken(old(server.cells), server.cells, buffer[..totalAlloc])
  {
    hide Distinct, Taken, FreeCells;
    totalAlloc := 0;
    var nalloc: nat := ntotal;
    FreeFit(server.cells);
    TakenNone(server.cells);
    assert buffer[..0] == [];
    while nalloc > 0
      invariant nalloc == 0 || PowerOfTwo(nalloc)
      invariant |FreeCells(server.cells)| < 2 * nalloc || (nalloc == 0 && |FreeCells(server.cells)| == 0)
      invariant totalAlloc + |FreeCells(server.cells)| == |FreeCells(old(server.cells))| <= buffer.Length
      invariant Distinct(buffer[..totalAlloc]) && Taken(old(server.cells), server.cells, buffer[..totalAlloc])
    {
      ghost var was, before := server.cells, buffer[..totalAlloc];
      var ok := GrabSome(server, nalloc, buffer, totalAlloc);
      if ok {
        ghost var pixels := buffer[totalAlloc..totalAlloc + nalloc];
        TakenMore(old(server.cells), was, server.cells, before, pixels);
        assert buffer[..totalAlloc + nalloc] == before + pixels;
        totalAlloc := totalAlloc + nalloc;
      } else {
        assert buffer[..totalAlloc] == buffer[..][..totalAlloc];
      }
      nalloc := nalloc / 2;
    }
  }

  lemma TakenNone(cells: seq<Cell>)
    ensures Distinct([]) && Taken(cells, cells, [])
  {
  }

  lemma TakenMore(c0: seq<Cell>, c1: seq<Cell>, c2: seq<Cell>, ps: seq<nat>, qs: seq<nat>)
    requires Taken(c0, c1, ps) && Taken(c1, c2, qs) && Distinct(ps) && Distinct(qs)
    ensures Taken(c0, c2, ps + qs) && Distinct(ps + qs)
  {
    assert forall p :: p in ps ==> p !in qs;
    DistinctConcat(ps, qs);
    forall p | p in ps + qs ensures p < |c0| && c0[p].Free? && c2[p] == Private(true) {
      assert p in ps || p in qs;
    }
    forall i: nat | i < |c0| && i !in ps + qs ensures c2[i] == c0[i] {
      assert i !in ps && i !in qs;
    }
  }

  // ---------- cmc_alloc ----------

  /** A cell that was free ends up free or read-only with one of the colors; a cell that was not free
      is untouched, but a read-only cell may have gained allocations by this client. */
  ghost predicate Settled(before: Cell, after: Cell, colors: seq<int>) {
    if before.Free? then after.Free? || (after.Shared? && after.rgb in colors && after.others == 0 && after.mine > 0)
    else if before.Shared? then
      after.Shared? && after.rgb == before.rgb && after.others == before.others && after.mine >= before.mine
    else after == before
  }

  /** How many allocations of a color this client has. */
  function Allocations(cells: seq<Cell>, rgb: int): nat {
    if cells == [] then 0
    else
      var c := cells[|cells| - 1];
      Allocations(cells[..|cells| - 1], rgb) + (if c.Shared? && c.rgb == rgb then c.mine else 0)
  }

  /** From one state to the other this client gains one allocation per listed color, and no other. */
  ghost predicate Gained(before: seq<Cell>, after: seq<Cell>, colors: seq<int>) {
    forall rgb :: Allocations(after, rgb) == Allocations(before, rgb) + multiset(colors)[rgb]
  }

  lemma {:induction false} SameAllocations(before: seq<Cell>, after: seq<Cell>, rgb: int)
    requires |before| == |after|
    requires forall i: nat :: i < |before| ==> after[i] == before[i] || (!after[i].Shared? && !before[i].Shared?)
    ensures Allocations(after, rgb) == Allocations(before, rgb)
  {
    if before != [] { SameAllocations(before[..|before| - 1], after[..|after| - 1], rgb); }
  }

  lemma {:induction false} OneAllocation(before: seq<Cell>, after: seq<Cell>, color: int, p: nat, rgb: int)
    requires SharedOnce(before, after, color, p)
    ensures Allocations(after, rgb) == Allocations(before, rgb) + if rgb == color then 1 else 0
  {
    var n := |before| - 1;
    if p == n { SameAllocations(before[..n], after[..n], rgb); }
    else { OneAllocation(before[..n], after[..n], color, p, rgb); }
  }

  /** cmc_alloc: white and black are the pixel numbers of those colors. The fatal error is never reached. */
  method CmcAlloc(server: Server, ntotal: nat, colors: seq<int>, white: int, black: int)
    returns (granted: nat, published: nat)
    requires PowerOfTwo(ntotal) && |server.cells| == ntotal
    modifies server
    ensures granted == Min(|colors|, |FreeCells(old(server.cells))|)
    ensures |server.cells| == ntotal
    ensures forall i: nat :: i < ntotal ==> Settled(old(server.cells)[i], server.cells[i], colors[..granted])
    ensures Gained(old(server.cells), server.cells, colors[..granted])
    ensures |FreeCells(server.cells)| >= |FreeCells(old(server.cells))| - granted
    ensures published == granted + (if white == ntotal - 1 || white == ntotal - 2 then 1 else 0)
                                 + (if black == ntotal - 1 || black == ntotal - 2 then 1 else 0)
  {
    hide Progress, Settled, Gained, Distinct, Taken, GivenBack, FreeCells, Elements;
    ghost var cells0 := server.cells;
    var pixels := new nat[ntotal];
    var totalAlloc := GrabAll(server, ntotal, pixels);
    granted := if |colors| < totalAlloc then |colors| else totalAlloc;
    // give back one cell per color, keep the rest
    var nalloc := totalAlloc - granted;
    var keep, release := pixels[..nalloc], pixels[nalloc..totalAlloc];
    assert pixels[..totalAlloc] == keep + release;
    GrabbedParts(cells0, server.cells, keep, release);
    ghost var grabbed := server.cells;
    server.FreeColors(release);
    DistinctSize(release);
    Released(cells0, grabbed, server.cells, keep, release, colors);
    AllocateColors(server, cells0, keep, colors, granted);
    // the kept ones have served their purpose
    ghost var last := server.cells;
    StillPrivate(cells0, last, keep, colors, granted);
    server.FreeColors(keep);
    Finished(cells0, last, server.cells, keep, colors, granted);
    published := granted;
    if white == ntotal - 1 || white == ntotal - 2 { published := published + 1; }
    if black == ntotal - 1 || black == ntotal - 2 { published := published + 1; }
  }

  /** The loop that allocates the workspace colors, the last one first. */
  method AllocateColors(server: Server, ghost before: seq<Cell>, ghost keep: seq<nat>, colors: seq<int>, n: nat)
    requires n <= |colors| && n <= |FreeCells(server.cells)|
    requires Progress(before, server.cells, keep, colors, n, n)
    modifies server
    ensures Progress(before, server.cells, keep, colors, 0, n)
    ensures |FreeCells(server.cells)| >= |FreeCells(old(server.cells))| - n
  {
    hide Progress;
    var c: nat := n;
    while c > 0
      invariant c <= n && Progress(before, server.cells, keep, colors, c, n)
      invariant |FreeCells(server.cells)| >= |FreeCells(old(server.cells))| - (n - c)
    {
      c := c - 1;
      ghost var was := server.cells;
      var ok, p := server.AllocColor(colors[c]);
      // the program would stop here
      if !ok { assert false; }
      OneMore(before, was, server.cells, keep, colors, c, n, p);
    }
  }

  /** While the colors from c on have been allocated: the placeholders are still private, every other
      cell is settled, and those colors are gained. */
  ghost predicate Progress(before: seq<Cell>, now: seq<Cell>, keep: seq<nat>, colors: seq<int>, c: nat, n: nat)
    requires c <= n <= |colors|
  {
    && |now| == |before|
    && (forall p :: p in keep ==> p < |before| && before[p].Free? && now[p] == Private(true))
    && (forall i: nat :: i < |before| && i !in keep ==> Settled(before[i], now[i], colors[..n]))
    && Gained(before, now, colors[c..n])
  }

  lemma GrabbedParts(before: seq<Cell>, grabbed: seq<Cell>, keep: seq<nat>, release: seq<nat>)
    requires Distinct(keep + release) && Taken(before, grabbed, keep + release)
    ensures Distinct(keep) && Distinct(release) && |grabbed| == |before|
    ensures forall p :: p in keep ==> p !in release && p < |before| && before[p].Free? && grabbed[p] == Private(true)
    ensures forall p :: p in release ==> p < |before| && before[p].Free? && grabbed[p] == Private(true)
  {
    var all := keep + release;
    forall i, j | 0 <= i < j < |release| ensures release[i] != release[j] {
      assert release[i] == all[|keep| + i] && release[j] == all[|keep| + j];
    }
    forall i, j | 0 <= i < j < |keep| ensures keep[i] != keep[j] {
      assert keep[i] == all[i] && keep[j] == all[j];
    }
    forall p | p in keep ensures p !in release && p in all {
      var i :| 0 <= i < |keep| && keep[i] == p;
      assert all[i] == p;
      forall j | 0 <= j < |release| ensures release[j] != p { assert all[|keep| + j] == release[j]; }
    }
    forall p | p in release ensures p in all {
      var j :| 0 <= j < |release| && release[j] == p;
      assert all[|keep| + j] == p;
    }
  }

  lemma Released(before: seq<Cell>, grabbed: seq<Cell>, now: seq<Cell>, keep: seq<nat>, release: seq<nat>, colors: seq<int>)
    requires Distinct(keep + release) && Taken(before, grabbed, keep + release)
    requires |release| <= |colors| && GivenBack(grabbed, now, release)
    ensures Progress(before, now, keep, colors, |release|, |release|)
  {
    GrabbedParts(before, grabbed, keep, release);
    forall i: nat | i < |before| && i !in keep ensures Settled(before[i], now[i], colors[..|release|]) {
      if i !in release { assert i !in keep + release; }
    }
    forall rgb ensures Allocations(now, rgb) == Allocations(before, rgb) { SameAllocations(before, now, rgb); }
  }

  lemma StillPrivate(before: seq<Cell>, now: seq<Cell>, keep: seq<nat>, colors: seq<int>, n: nat)
    requires n <= |colors| && Progress(before, now, keep, colors, 0, n) && Distinct(keep)
    ensures forall p :: p in keep ==> p < |now| && now[p] == Private(true)
    ensures |FreeCells(now) + Elements(keep)| == |FreeCells(now)| + |keep|
  {
    DistinctSize(keep);
    assert FreeCells(now) !! Elements(keep);
  }

  lemma Finished(before: seq<Cell>, now: seq<Cell>, after: seq<Cell>, keep: seq<nat>, colors: seq<int>, n: nat)
    requires n <= |colors| && Progress(before, now, keep, colors, 0, n) && GivenBack(now, after, keep)
    ensures |after| == |before| && forall i: nat :: i < |before| ==> Settled(before[i], after[i], colors[..n])
    ensures Gained(before, after, colors[..n])
  {
    assert colors[0..n] == colors[..n];
    forall rgb ensures Allocations(after, rgb) == Allocations(now, rgb) { SameAllocations(now, after, rgb); }
  }

  lemma OneMore(before: seq<Cell>, was: seq<Cell>, now: seq<Cell>, keep: seq<nat>, colors: seq<int>, c: nat, n: nat, p: nat)
    requires c < n <= |colors| && Progress(before, was, keep, colors, c + 1, n)
    requires SharedOnce(was, now, colors[c], p)
    ensures Progress(before, now, keep, colors, c, n)
  {
    assert colors[c] == colors[..n][c];
    assert colors[c..n] == [colors[c]] + colors[c + 1..n];
    forall rgb ensures Allocations(now, rgb) == Allocations(was, rgb) + if rgb == colors[c] then 1 else 0 {
      OneAllocation(was, now, colors[c], p, rgb);
    }
  }

  // ---------- cmc_record ----------

  const CELL_IGNORE := 0
  const CELL_READONLY := 1
  const WHITE := 0xffff_ffff_ffff
  const BLACK := 0

  /** The pixels still marked, in order. */
  function Marked(t: seq<int>): (ps: seq<nat>)
    ensures |ps| <= |t|
  {
    if t == [] then []
    else Marked(t[..|t| - 1]) + (if t[|t| - 1] == CELL_IGNORE then [] else [|t| - 1])
  }

  lemma {:induction false} IgnoreOne(t: seq<int>, p: nat)
    requires p < |t| && t[p] != CELL_IGNORE
    ensures |Marked(t[p := CELL_IGNORE])| == |Marked(t)| - 1
  {
    var n := |t| - 1;
    if p == n { assert t[p := CELL_IGNORE][..n] == t[..n]; }
    else {
      assert t[p := CELL_IGNORE][..n] == t[..n][p := CELL_IGNORE];
      IgnoreOne(t[..n], p);
    }
  }

  lemma {:induction false} MarkedMonotonic(t: seq<int>, n: nat)
    requires n <= |t|
    ensures |Marked(t[..n])| <= |Marked(t)|
    decreases |t| - n
  {
    if n < |t| {
      assert t[..n + 1][..n] == t[..n];
      MarkedMonotonic(t, n + 1);
    } else {
      assert t[..n] == t;
    }
  }

  lemma {:induction false} AllMarked(t: seq<int>)
    requires forall i :: 0 <= i < |t| ==> t[i] == CELL_READONLY
    ensures |Marked(t)| == |t|
  {
    if t != [] { AllMarked(t[..|t| - 1]); }
  }

  /** A workspace color: a read-only cell that can be looked at and is neither white nor black. */
  predicate Wanted(cells: seq<Cell>, reserved: set<nat>, i: nat)
    requires i < |cells|
  {
    cells[i].Shared? && i !in reserved && cells[i].rgb != WHITE && cells[i].rgb != BLACK
  }

  /** The workspace colors among the first n cells, in pixel order. */
  function Workspace(cells: seq<Cell>, reserved: set<nat>, n: nat): seq<nat>
    requires n <= |cells|
  {
    if n == 0 then []
    else if Wanted(cells, reserved, n - 1) then Workspace(cells, reserved, n - 1) + [n - 1]
    else Workspace(cells, reserved, n - 1)
  }

  lemma {:induction false} MarkedIsWorkspace(t: seq<int>, cells: seq<Cell>, reserved: set<nat>)
    requires |t| <= |cells|
    requires forall i: nat :: i < |t| ==> (t[i] != CELL_IGNORE <==> Wanted(cells, reserved, i))
    ensures Marked(t) == Workspace(cells, reserved, |t|)
  {
    if t != [] { MarkedIsWorkspace(t[..|t| - 1], cells, reserved); }
  }

  /** Marks the pixels found free; each was still marked, so the count goes down by their number. */
  method MarkIgnored(t: array<int>, pixels: seq<nat>)
    requires Distinct(pixels) && forall p :: p in pixels ==> p < t.Length && t[p] != CELL_IGNORE
    modifies t
    ensures forall i: nat :: i < t.Length ==> t[i] == if i in pixels then CELL_IGNORE else old(t[i])
    ensures |Marked(t[..])| == |Marked(old(t[..]))| - |pixels|
  {
    for i := 0 to |pixels|
      invariant forall j: nat :: j < t.Length ==> t[j] == if j in pixels[..i] then CELL_IGNORE else old(t[j])
      invariant |Marked(t[..])| == |Marked(old(t[..]))| - i
    {
      assert pixels[i] in pixels && pixels[i] !in pixels[..i] && pixels[..i + 1] == pixels[..i] + [pixels[i]];
      IgnoreOne(t[..], pixels[i]);
      t[pixels[i]] := CELL_IGNORE;
    }
    assert pixels[..|pixels|] == pixels;
  }

  /** Where the grab phase stands: exactly the free cells it has taken are marked. */
  ghost predicate MarkedFree(before: seq<Cell>, now: seq<Cell>, t: seq<int>) {
    && |before| == |now| == |t|
    && (forall i: nat :: i < |t| ==> (now[i] == before[i] || (before[i].Free? && now[i] == Private(true))))
    && (forall i: nat :: i < |t| ==> t[i] == if now[i] == before[i] then CELL_READONLY else CELL_IGNORE)
  }

  lemma MarkedMore(before: seq<Cell>, was: seq<Cell>, now: seq<Cell>, t: seq<int>, u: seq<int>, ps: seq<nat>)
    requires MarkedFree(before, was, t) && Taken(was, now, ps) && |u| == |t|
    requires forall i: nat :: i < |t| ==> u[i] == if i in ps then CELL_IGNORE else t[i]
    ensures MarkedFree(before, now, u)
  {
  }

  lemma StillMarked(before: seq<Cell>, was: seq<Cell>, now: seq<Cell>, t: seq<int>, ps: seq<nat>)
    requires MarkedFree(before, was, t) && Taken(was, now, ps)
    ensures forall p :: p in ps ==> p < |t| && t[p] != CELL_IGNORE
  {
  }

  /** The first loop of cmc_record: whatever cell it can get hold of is not a workspace color. */
  method FindFree(server: Server, ntotal: nat, pixtype: array<int>) returns (ncolors: nat)
    requires PowerOfTwo(ntotal) && |server.cells| == ntotal == pixtype.Length
    requires forall i :: 0 <= i < ntotal ==> pixtype[i] == CELL_READONLY
    modifies server, pixtype
    ensures MarkedFree(old(server.cells), server.cells, pixtype[..]) && FreeCells(server.cells) == {}
    ensures ncolors == |Marked(pixtype[..])|
  {
    hide MarkedFree, Taken, FreeCells, Distinct, Marked;
    var pixels := new nat[ntotal];
    ncolors := ntotal;
    AllMarked(pixtype[..]);
    NoneTaken(server.cells, pixtype[..]);
    FreeFit(server.cells);
    var nalloc: nat := ntotal;
    while nalloc > 0
      invariant nalloc == 0 || PowerOfTwo(nalloc)
      invariant |FreeCells(server.cells)| < 2 * nalloc || (nalloc == 0 && |FreeCells(server.cells)| == 0)
      invariant |FreeCells(server.cells)| <= ntotal
      invariant MarkedFree(old(server.cells), server.cells, pixtype[..])
      invariant ncolors == |Marked(pixtype[..])|
    {
      ghost var was, t := server.cells, pixtype[..];
      var ok := GrabSome(server, nalloc, pixels, 0);
      if ok {
        var ps := pixels[..nalloc];
        assert pixels[0..0 + nalloc] == ps;
        StillMarked(old(server.cells), was, server.cells, t, ps);
        MarkIgnored(pixtype, ps);
        MarkedMore(old(server.cells), was, server.cells, t, pixtype[..], ps);
        ncolors := ncolors - nalloc;
      }
      nalloc := nalloc / 2;
    }
  }

  lemma NoneTaken(cells: seq<Cell>, t: seq<int>)
    requires |t| == |cells| && forall i :: 0 <= i < |t| ==> t[i] == CELL_READONLY
    ensures MarkedFree(cells, cells, t)
  {
  }

  /** The second loop: the first n cells are settled, the others still only tell free from not free. */
  ghost predicate Sifted(before: seq<Cell>, reserved: set<nat>, t: seq<int>, n: nat) {
    && |t| == |before|
    && forall i: nat :: i < |t| ==> (t[i] != CELL_IGNORE <==> if i < n then Wanted(before, reserved, i) else !before[i].Free?)
  }

  /** Eliminates every marked cell that is reserved, read/write, white or black. */
  method Sift(server: Server, ghost before: seq<Cell>, pixtype: array<int>, ncolors0: nat) returns (ncolors: nat)
    requires MarkedFree(before, server.cells, pixtype[..]) && FreeCells(server.cells) == {}
    requires ncolors0 == |Marked(pixtype[..])|
    modifies pixtype
    ensures ncolors == |Marked(pixtype[..])|
    ensures Sifted(before, server.reserved, pixtype[..], pixtype.Length)
  {
    hide Marked;
    ncolors := ncolors0;
    assert forall i: nat :: i < |server.cells| ==> !(server.cells[i].Free? && i !in FreeCells(server.cells));
    for i := 0 to pixtype.Length
      invariant ncolors == |Marked(pixtype[..])|
      invariant Sifted(before, server.reserved, pixtype[..], i)
    {
      ghost var t := pixtype[..];
      if pixtype[i] != CELL_IGNORE {
        IgnoreOne(pixtype[..], i);
        var denied, rgb := server.QueryColor(i);
        if denied {
          pixtype[i] := CELL_IGNORE;
          ncolors := ncolors - 1;
        } else {
          denied := server.StoreColor(i);
          if !denied {
            // a store into any other cell is refused
            pixtype[i] := CELL_IGNORE;
            ncolors := ncolors - 1;
          } else if rgb == WHITE || rgb == BLACK {
            pixtype[i] := CELL_IGNORE;
            ncolors := ncolors - 1;
          }
        }
      }
      assert pixtype[..] == t || pixtype[..] == t[i := CELL_IGNORE];
    }
  }

  /** cmc_record: what it reports is exactly the workspace colors, in pixel order; the array allocated
      for them has exactly as many places. */
  method CmcRecord(server: Server, ntotal: nat) returns (ncolors: nat, colors: array<nat>)
    requires PowerOfTwo(ntotal) && |server.cells| == ntotal
    modifies server
    ensures ncolors == colors.Length && colors[..] == Workspace(old(server.cells), server.reserved, ntotal)
    ensures |server.cells| == ntotal
    ensures forall i: nat :: i < ntotal ==>
      server.cells[i] == if old(server.cells)[i].Free? then Private(true) else old(server.cells)[i]
  {
    ghost var cells0 := server.cells;
    var pixtype := new int[ntotal](_ => CELL_READONLY);
    ncolors := FindFree(server, ntotal, pixtype);
    assert forall i: nat :: i < ntotal && server.cells[i].Free? ==> i in FreeCells(server.cells);
    ncolors := Sift(server, cells0, pixtype, ncolors);
    colors := Collect(pixtype, ncolors);
    MarkedIsWorkspace(pixtype[..], cells0, server.reserved);
  }

  /** The last loop: copies the marked pixels into an array with ncolors places. */
  method Collect(pixtype: array<int>, ncolors: nat) returns (colors: array<nat>)
    requires ncolors == |Marked(pixtype[..])|
    ensures fresh(colors) && colors.Length == ncolors && colors[..] == Marked(pixtype[..])
  {
    colors := new nat[ncolors];
    var c := 0;
    for i := 0 to pixtype.Length
      invariant c == |Marked(pixtype[..i])| <= ncolors && colors[..c] == Marked(pixtype[..i])
    {
      assert pixtype[..i + 1][..i] == pixtype[..i];
      MarkedMonotonic(pixtype[..], i + 1);
      assert pixtype[..][..i + 1] == pixtype[..i + 1];
      if pixtype[i] != CELL_IGNORE {
        colors[c] := i;
        c := c + 1;
      }
    }
    assert pixtype[..pixtype.Length] == pixtype[..];
  }
}
