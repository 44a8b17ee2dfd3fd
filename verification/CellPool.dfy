/** The colormap cells of an X server, as far as the AllocColor, AllocColorCells, FreeColors,
    QueryColors and StoreColors requests of section 9 of the X Window System Protocol, Version 11,
    describe them to one client. */
module CellPool {

  /** A color is one number here, 16 bits each of red, green and blue. A cell is free, held read/write
      by this client or another, or read-only with a color and the number of allocations this client
      and the others have of it. */
  datatype Cell = Free | Private(own: bool) | Shared(rgb: int, mine: nat, others: nat)

  function FreeCells(cells: seq<Cell>): set<nat> {
    set i: nat | i < |cells| && cells[i].Free?
  }

  function Elements(s: seq<nat>): set<nat> {
    set x | x in s
  }

  ghost predicate Distinct(s: seq<nat>) {
    forall i, j :: 0 <= i < j < |s| ==> s[i] != s[j]
  }

  lemma {:induction false} DistinctSize(s: seq<nat>)
    requires Distinct(s)
    ensures |Elements(s)| == |s|
  {
    if s != [] {
      var t := s[..|s| - 1];
      DistinctSize(t);
      assert Elements(s) == Elements(t) + {s[|s| - 1]};
    }
  }

  lemma DistinctConcat(s: seq<nat>, t: seq<nat>)
    requires Distinct(s) && Distinct(t) && forall x :: x in s ==> x !in t
    ensures Distinct(s + t)
  {
    forall i, j | 0 <= i < j < |s + t| ensures (s + t)[i] != (s + t)[j] {
      if i < |s| <= j { assert s[i] in s && t[j - |s|] in t; }
    }
  }

  function UpTo(n: nat): (s: set<nat>)
    ensures |s| == n && forall i: nat :: i in s <==> i < n
  {
    if n == 0 then {} else UpTo(n - 1) + {n - 1}
  }

  lemma FreeFit(cells: seq<Cell>)
    ensures |FreeCells(cells)| <= |cells|
  {
    assert UpTo(|cells|) == FreeCells(cells) + (UpTo(|cells|) - FreeCells(cells));
  }

  /** The cells after the given ones have been made private to this client. */
  ghost predicate Taken(before: seq<Cell>, after: seq<Cell>, ps: seq<nat>) {
    && |after| == |before|
    && (forall p :: p in ps ==> p < |before| && before[p].Free? && after[p] == Private(true))
    && (forall i: nat :: i < |before| && i !in ps ==> after[i] == before[i])
  }

  /** The cells after this client has given back private ones. */
  ghost predicate GivenBack(before: seq<Cell>, after: seq<Cell>, ps: seq<nat>) {
    && |after| == |before|
    && (forall p :: p in ps ==> p < |before| && after[p] == Free)
    && (forall i: nat :: i < |before| && i !in ps ==> after[i] == before[i])
  }

  /** The cells after one more allocation of a color: a read-only cell that has it, or a free cell. */
  ghost predicate SharedOnce(before: seq<Cell>, after: seq<Cell>, rgb: int, p: nat) {
    && p < |before| == |after|
    && (before[p].Free? || (before[p].Shared? && before[p].rgb == rgb))
    && after[p] == (if before[p].Free? then Shared(rgb, 1, 0) else Shared(rgb, before[p].mine + 1, before[p].others))
    && forall i: nat :: i < |before| && i != p ==> after[i] == before[i]
  }

  class Server {
    var cells: seq<Cell>
    const reserved: set<nat>     // cells the server lets nobody look at

    constructor (cells: seq<Cell>, reserved: set<nat>)
      ensures this.cells == cells && this.reserved == reserved
    {
      this.cells, this.reserved := cells, reserved;
    }

    /** AllocColorCells without planes: n private cells, which ones is the server's choice; an Alloc
        error and no change when there are not that many. */
    method AllocColorCells(n: nat) returns (ok: bool, pixels: seq<nat>)
      modifies this
      ensures ok <==> n <= |FreeCells(old(cells))|
      ensures ok ==> |pixels| == n && Distinct(pixels) && Taken(old(cells), cells, pixels)
      ensures ok ==> FreeCells(cells) == FreeCells(old(cells)) - Elements(pixels)
      ensures !ok ==> cells == old(cells)
    {
      pixels := [];
      if n > |FreeCells(cells)| { return false, []; }
      while |pixels| < n
        invariant |pixels| <= n && Distinct(pixels) && Taken(old(cells), cells, pixels)
        invariant FreeCells(cells) == FreeCells(old(cells)) - Elements(pixels)
      {
        DistinctSize(pixels);
        assert Elements(pixels) <= FreeCells(old(cells));
        assert |FreeCells(cells)| == |FreeCells(old(cells))| - |pixels|;
        var p :| p in FreeCells(cells);
        pixels := pixels + [p];
        cells := cells[p := Private(true)];
      }
      ok := true;
    }

    /** AllocColor: another allocation of a read-only cell of this color, or a free cell made one; an
        Alloc error when there is neither. */
    method AllocColor(rgb: int) returns (ok: bool, pixel: nat)
      modifies this
      ensures ok ==> SharedOnce(old(cells), cells, rgb, pixel)
      ensures !ok ==> cells == old(cells) && FreeCells(cells) == {}
      ensures |FreeCells(cells)| >= |FreeCells(old(cells))| - 1
    {
      for i := 0 to |cells|
        invariant cells == old(cells)
      {
        if cells[i].Shared? && cells[i].rgb == rgb {
          cells := cells[i := Shared(rgb, cells[i].mine + 1, cells[i].others)];
          assert FreeCells(cells) == FreeCells(old(cells));
          return true, i;
        }
      }
      if FreeCells(cells) == {} { return false, 0; }
      var p :| p in FreeCells(cells);
      cells := cells[p := Shared(rgb, 1, 0)];
      assert FreeCells(cells) == FreeCells(old(cells)) - {p};
      return true, p;
    }

    /** QueryColors of one cell: an Access error for a reserved cell. */
    method QueryColor(p: nat) returns (denied: bool, rgb: int)
      requires p < |cells|
      ensures (denied <==> p in reserved) && (!denied && cells[p].Shared? ==> rgb == cells[p].rgb)
    {
      denied := p in reserved;
      rgb := if !denied && cells[p].Shared? then cells[p].rgb else 0;
    }

    /** StoreColors of one cell: an Access error unless some client holds it read/write. */
    method StoreColor(p: nat) returns (denied: bool)
      requires p < |cells|
      ensures denied <==> !cells[p].Private?
    {
      denied := !cells[p].Private?;
    }

    /** FreeColors, for private cells of this client. */
    method FreeColors(pixels: seq<nat>)
      requires forall p :: p in pixels ==> p < |cells| && cells[p] == Private(true)
      requires Distinct(pixels)
      modifies this
      ensures GivenBack(old(cells), cells, pixels)
      ensures FreeCells(cells) == FreeCells(old(cells)) + Elements(pixels)
    {
      for i := 0 to |pixels|
        invariant GivenBack(old(cells), cells, pixels[..i])
      {
        assert pixels[i] in pixels && pixels[..i + 1] == pixels[..i] + [pixels[i]];
        cells := cells[pixels[i] := Free];
      }
      assert pixels[..|pixels|] == pixels;
    }
  }
}
