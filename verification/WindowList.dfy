/** libdga's list of grabbed X windows: which display and window each token stands for. */
module WindowList {
  import opened Machine


  /** A record; window 0 is the null window. */
  datatype Rec = Rec(token: nat, dpy: int, win: int, refcnt: nat)

  ghost predicate Valid(list: seq<Rec>) {
    && (forall i, j :: 0 <= i < j < |list| ==> list[i].token != list[j].token)
    && (forall i :: 0 <= i < |list| ==> list[i].refcnt > 0)
  }

  function Sum(list: seq<Rec>): nat {
    if list == [] then 0 else list[0].refcnt + Sum(list[1..])
  }

  /** Index of the first record with this token, or the length. */
  function Find(list: seq<Rec>, token: nat): (i: nat)
    ensures i <= |list|
    ensures i < |list| ==> list[i].token == token
    ensures forall j :: 0 <= j < i ==> list[j].token != token
  {
    if list == [] || list[0].token == token then 0 else 1 + Find(list[1..], token)
  }

  /** Index of the first record of this display and window, or the length. */
  function FindWindow(list: seq<Rec>, dpy: int, win: int): (i: nat)
    ensures i <= |list|
    ensures i < |list| ==> list[i].dpy == dpy && list[i].win == win
    ensures forall j :: 0 <= j < i ==> !(list[j].dpy == dpy && list[j].win == win)
  {
    if list == [] || (list[0].dpy == dpy && list[0].win == win) then 0 else 1 + FindWindow(list[1..], dpy, win)
  }

  /** The records to keep, in order. */
  function Filter(list: seq<Rec>, keep: Rec -> bool): seq<Rec> {
    if list == [] then []
    else if keep(list[0]) then [list[0]] + Filter(list[1..], keep)
    else Filter(list[1..], keep)
  }

  /** The records of other displays. */
  function OtherDisplays(list: seq<Rec>, dpy: int): seq<Rec> {
    Filter(list, (r: Rec) => r.dpy != dpy)
  }

  /** The records of other windows. */
  function OtherWindows(list: seq<Rec>, dpy: int, win: int): seq<Rec> {
    Filter(list, (r: Rec) => !(r.dpy == dpy && r.win == win))
  }

  function Remove(list: seq<Rec>, i: nat): seq<Rec>
    requires i < |list|
  {
    list[..i] + list[i + 1..]
  }

  /** The list after dga_winlist_free. */
  function Freed(list: seq<Rec>, dpy: int, win: int): seq<Rec> {
    if win == 0 then OtherDisplays(list, dpy)
    else
      var i := FindWindow(list, dpy, win);
      if i == |list| then list
      else if list[i].refcnt <= 1 then Remove(list, i)
      else list[i := list[i].(refcnt := list[i].refcnt - 1)]
  }

  /** How many uses of a window are counted. */
  function Uses(list: seq<Rec>, dpy: int, win: int): nat {
    if list == [] then 0
    else (if list[0].dpy == dpy && list[0].win == win then list[0].refcnt else 0) + Uses(list[1..], dpy, win)
  }

  // ---------- Facts about the functions ----------

  lemma {:induction false} SumOfConcat(a: seq<Rec>, b: seq<Rec>)
    ensures Sum(a + b) == Sum(a) + Sum(b)
  {
    if a == [] { assert a + b == b; }
    else {
      assert (a + b)[0] == a[0] && (a + b)[1..] == a[1..] + b;
      SumOfConcat(a[1..], b);
    }
  }

  lemma {:induction false} FilterConcat(a: seq<Rec>, b: seq<Rec>, keep: Rec -> bool)
    ensures Filter(a + b, keep) == Filter(a, keep) + Filter(b, keep)
  {
    if a == [] { assert a + b == b; }
    else {
      assert (a + b)[0] == a[0] && (a + b)[1..] == a[1..] + b;
      FilterConcat(a[1..], b, keep);
    }
  }

  lemma {:induction false} FilterMembers(list: seq<Rec>, keep: Rec -> bool)
    ensures forall r :: r in Filter(list, keep) <==> r in list && keep(r)
  {
    if list != [] {
      FilterMembers(list[1..], keep);
      assert list == [list[0]] + list[1..];
    }
  }

  lemma {:induction false} FilterValid(list: seq<Rec>, keep: Rec -> bool)
    requires Valid(list)
    ensures Valid(Filter(list, keep))
  {
    if list != [] {
      var rest := list[1..];
      FilterValid(rest, keep);
      FilterMembers(rest, keep);
      forall r | r in Filter(rest, keep) ensures r.token != list[0].token {
        var j :| 0 <= j < |rest| && rest[j] == r;
        assert list[j + 1] == r;
      }
    }
  }

  lemma {:induction false} FilterSum(list: seq<Rec>, keep: Rec -> bool)
    requires forall i :: 0 <= i < |list| ==> list[i].refcnt > 0
    ensures Sum(Filter(list, keep)) <= Sum(list)
    ensures (exists r :: r in list && !keep(r)) ==> Sum(Filter(list, keep)) < Sum(list)
  {
    if list != [] {
      FilterSum(list[1..], keep);
      assert list == [list[0]] + list[1..];
    }
  }

  lemma {:induction false} FilterAll(list: seq<Rec>, keep: Rec -> bool)
    requires forall j :: 0 <= j < |list| ==> keep(list[j])
    ensures Filter(list, keep) == list
  {
    if list != [] { FilterAll(list[1..], keep); }
  }

  lemma SumOfSplit(list: seq<Rec>, i: nat, r: Rec)
    requires i < |list|
    ensures Sum(list) == Sum(list[..i]) + list[i].refcnt + Sum(list[i + 1..])
    ensures Sum(list[i := r]) == Sum(list[..i]) + r.refcnt + Sum(list[i + 1..])
    ensures Sum(Remove(list, i)) == Sum(list[..i]) + Sum(list[i + 1..])
  {
    SumOfConcat(list[..i], list[i + 1..]);
    assert list == list[..i] + ([list[i]] + list[i + 1..]);
    SumOfConcat(list[..i], [list[i]] + list[i + 1..]);
    assert list[i := r] == list[..i] + ([r] + list[i + 1..]);
    SumOfConcat(list[..i], [r] + list[i + 1..]);
  }

  /** Freeing keeps tokens distinct and counts positive, and takes something away when there is
      anything to free. */
  lemma FreedIsValid(list: seq<Rec>, dpy: int, win: int)
    requires Valid(list)
    ensures Valid(Freed(list, dpy, win))
    ensures (exists r :: r in list && r.dpy == dpy && r.win == win) ==> Sum(Freed(list, dpy, win)) < Sum(list)
  {
    if win == 0 {
      var keep := (r: Rec) => r.dpy != dpy;
      FilterValid(list, keep);
      FilterSum(list, keep);
    } else {
      var i := FindWindow(list, dpy, win);
      if i < |list| {
        SumOfSplit(list, i, list[i].(refcnt := list[i].refcnt - 1));
        RemoveIsValid(list, i);
        hide Valid, Sum, Remove;
      }
    }
  }

  lemma RemoveIsValid(list: seq<Rec>, i: nat)
    requires Valid(list) && i < |list|
    ensures Valid(Remove(list, i))
    ensures list[i].refcnt > 1 ==> Valid(list[i := list[i].(refcnt := list[i].refcnt - 1)])
    ensures list[i].refcnt > 0
  {
  }

  lemma {:induction false} UsesOfConcat(a: seq<Rec>, b: seq<Rec>, d: int, w: int)
    ensures Uses(a + b, d, w) == Uses(a, d, w) + Uses(b, d, w)
  {
    if a == [] { assert a + b == b; }
    else {
      assert (a + b)[0] == a[0] && (a + b)[1..] == a[1..] + b;
      UsesOfConcat(a[1..], b, d, w);
    }
  }

  /** The uses of one record replaced, or removed. */
  lemma UsesOfSplit(list: seq<Rec>, i: nat, r: Rec, d: int, w: int)
    requires i < |list| && r.dpy == list[i].dpy && r.win == list[i].win
    ensures var hit := r.dpy == d && r.win == w;
      && Uses(list[i := r], d, w) == Uses(list, d, w) + (if hit then r.refcnt - list[i].refcnt else 0)
      && Uses(Remove(list, i), d, w) == Uses(list, d, w) - (if hit then list[i].refcnt else 0)
  {
    UsesOfConcat(list[..i], list[i + 1..], d, w);
    assert list == list[..i] + ([list[i]] + list[i + 1..]);
    UsesOfConcat(list[..i], [list[i]] + list[i + 1..], d, w);
    assert list[i := r] == list[..i] + ([r] + list[i + 1..]);
    UsesOfConcat(list[..i], [r] + list[i + 1..], d, w);
  }

  lemma {:induction false} NoUses(list: seq<Rec>, dpy: int, win: int)
    requires FindWindow(list, dpy, win) == |list|
    ensures Uses(list, dpy, win) == 0
  {
    if list != [] { NoUses(list[1..], dpy, win); }
  }

  lemma {:induction false} UsesOfOthers(list: seq<Rec>, dpy: int, d: int, w: int)
    ensures Uses(OtherDisplays(list, dpy), d, w) == if d == dpy then 0 else Uses(list, d, w)
  {
    if list != [] { UsesOfOthers(list[1..], dpy, d, w); }
  }

  /** Freeing a window takes one of its uses, if there is one, and none of any other window; freeing the
      null window takes all uses of all windows of the display, and no other. */
  lemma FreedUses(list: seq<Rec>, dpy: int, win: int, d: int, w: int)
    requires Valid(list)
    ensures Uses(Freed(list, dpy, win), d, w) ==
      if win == 0 then if d == dpy then 0 else Uses(list, d, w)
      else if d == dpy && w == win then Max(0, Uses(list, d, w) - 1)
      else Uses(list, d, w)
  {
    hide Valid, Uses, FindWindow, OtherDisplays, Remove;
    if win == 0 {
      UsesOfOthers(list, dpy, d, w);
    } else {
      var i := FindWindow(list, dpy, win);
      if i == |list| {
        NoUses(list, dpy, win);
      } else {
        RemoveIsValid(list, i);
        UsesOfSplit(list, i, list[i].(refcnt := list[i].refcnt - 1), d, w);
      }
    }
  }

  // ---------- Adding ----------

  /** The list after the purge loop of dga_winlist_add: as long as the token stands for another window,
      that window is freed once more. */
  ghost function Purged(list: seq<Rec>, token: nat, dpy: int, win: int): (r: seq<Rec>)
    requires Valid(list)
    ensures Valid(r)
    ensures Find(r, token) < |r| ==> r[Find(r, token)].dpy == dpy && r[Find(r, token)].win == win
    decreases Sum(list)
  {
    var i := Find(list, token);
    if i == |list| || (list[i].dpy == dpy && list[i].win == win) then list
    else
      assert list[i] in list;
      FreedIsValid(list, list[i].dpy, list[i].win);
      Purged(Freed(list, list[i].dpy, list[i].win), token, dpy, win)
  }

  /** What the purge amounts to when the token stands for another, non-null window: that record goes,
      and with it all earlier records of the same window; everything else keeps its place and count. */
  lemma {:induction false} PurgeRemoves(list: seq<Rec>, token: nat, dpy: int, win: int)
    requires Valid(list)
    requires var i := Find(list, token);
      i < |list| && list[i].win != 0 && !(list[i].dpy == dpy && list[i].win == win)
    ensures var i := Find(list, token);
      Purged(list, token, dpy, win) == OtherWindows(list[..i], list[i].dpy, list[i].win) + list[i + 1..]
    decreases Sum(list)
  {
    hide Valid, Freed, Purged, OtherWindows, Sum;
    var i := Find(list, token);
    var d, w := list[i].dpy, list[i].win;
    var next := Freed(list, d, w);
    PurgeStep(list, token, dpy, win);
    var j := FindWindow(list, d, w);
    if list[j].refcnt > 1 || j < i {
      var k := FreedBefore(list, token);
      PurgeRemoves(next, token, dpy, win);
    } else {
      FreedLast(list, token);
      PurgeEnds(next, token, dpy, win);
    }
  }

  lemma PurgeStep(list: seq<Rec>, token: nat, dpy: int, win: int)
    requires Valid(list)
    requires var i := Find(list, token); i < |list| && !(list[i].dpy == dpy && list[i].win == win)
    ensures var i := Find(list, token); var next := Freed(list, list[i].dpy, list[i].win);
      Valid(next) && Sum(next) < Sum(list) && Purged(list, token, dpy, win) == Purged(next, token, dpy, win)
  {
    hide Freed, Sum;
    var i := Find(list, token);
    assert list[i] in list;
    FreedIsValid(list, list[i].dpy, list[i].win);
  }

  lemma PurgeEnds(list: seq<Rec>, token: nat, dpy: int, win: int)
    requires Valid(list)
    requires var i := Find(list, token); i < |list| ==> list[i].dpy == dpy && list[i].win == win
    ensures Purged(list, token, dpy, win) == list
  {
  }

  lemma CountRaised(list: seq<Rec>, token: nat)
    requires Valid(list) && Find(list, token) < |list|
    ensures var i := Find(list, token); var m := list[i := list[i].(refcnt := list[i].refcnt + 1)];
      Valid(m) && Find(m, token) == i
  {
    var i := Find(list, token);
    FindAgain(list[i := list[i].(refcnt := list[i].refcnt + 1)], token, i);
  }

  /** The token, if it is listed, stands for this window. */
  predicate StandsFor(list: seq<Rec>, token: nat, dpy: int, win: int) {
    var i := Find(list, token);
    i < |list| ==> list[i].dpy == dpy && list[i].win == win
  }

  /** Adding such a token counts one more use of the window, and of no other. */
  lemma AddedUses(list: seq<Rec>, token: nat, dpy: int, win: int)
    requires Valid(list) && StandsFor(list, token, dpy, win)
    ensures Purged(list, token, dpy, win) == list
    ensures var i := Find(list, token);
      var m := if i < |list| then list[i := list[i].(refcnt := list[i].refcnt + 1)] else [Rec(token, dpy, win, 1)] + list;
      forall d, w :: Uses(m, d, w) == Uses(list, d, w) + if d == dpy && w == win then 1 else 0
  {
    hide Valid, Purged, Find;
    PurgeEnds(list, token, dpy, win);
    var i := Find(list, token);
    if i < |list| {
      var r := list[i].(refcnt := list[i].refcnt + 1);
      forall d, w ensures Uses(list[i := r], d, w) == Uses(list, d, w) + if d == dpy && w == win then 1 else 0 {
        UsesOfSplit(list, i, r, d, w);
      }
    } else {
      assert ([Rec(token, dpy, win, 1)] + list)[1..] == list;
    }
  }

  lemma NewInFront(list: seq<Rec>, token: nat, dpy: int, win: int)
    requires Valid(list) && Find(list, token) == |list|
    ensures var m := [Rec(token, dpy, win, 1)] + list; Valid(m) && Find(m, token) == 0
  {
    FindAgain([Rec(token, dpy, win, 1)] + list, token, 0);
  }

  /** While the token's record survives a free, the filtered prefix and the rest stay the same. */
  lemma FreedBefore(list: seq<Rec>, token: nat) returns (k: nat)
    requires Valid(list) && Find(list, token) < |list| && list[Find(list, token)].win != 0
    requires var i := Find(list, token); var j := FindWindow(list, list[i].dpy, list[i].win);
      j < i || (j < |list| && list[j].refcnt > 1)
    ensures var i := Find(list, token); var next := Freed(list, list[i].dpy, list[i].win);
      && k == Find(next, token) && k < |next| && next[k].dpy == list[i].dpy && next[k].win == list[i].win
      && OtherWindows(next[..k], list[i].dpy, list[i].win) == OtherWindows(list[..i], list[i].dpy, list[i].win)
      && next[k + 1..] == list[i + 1..]
  {
    hide Find, FindWindow, Valid, OtherWindows;
    var i := Find(list, token);
    var d, w := list[i].dpy, list[i].win;
    var j := FindWindow(list, d, w);
    RemoveIsValid(list, j);
    k := if list[j].refcnt > 1 then i else i - 1;
    if list[j].refcnt > 1 { LoweredBefore(list, token, i, j); } else { RemovedBefore(list, token, i, j); }
  }

  lemma LoweredBefore(list: seq<Rec>, token: nat, i: nat, j: nat)
    requires Valid(list) && i < |list| && list[i].token == token && j < |list|
    requires list[j].dpy == list[i].dpy && list[j].win == list[i].win && list[j].refcnt > 1
    ensures var d, w, next := list[i].dpy, list[i].win, list[j := list[j].(refcnt := list[j].refcnt - 1)];
      && Find(next, token) == i && next[i].dpy == d && next[i].win == w
      && (j <= i ==> OtherWindows(next[..i], d, w) == OtherWindows(list[..i], d, w) && next[i + 1..] == list[i + 1..])
  {
    hide OtherWindows;
    var next := list[j := list[j].(refcnt := list[j].refcnt - 1)];
    RemoveIsValid(list, j);
    FindAgain(next, token, i);
    if j < i {
      SameButCount(list[..i], j, list[j].refcnt - 1, list[i].dpy, list[i].win);
      assert next[..i] == list[..i][j := next[j]];
    } else {
      assert next[..i] == list[..i];
    }
  }

  lemma RemovedBefore(list: seq<Rec>, token: nat, i: nat, j: nat)
    requires Valid(list) && j < i < |list| && list[i].token == token
    requires list[j].dpy == list[i].dpy && list[j].win == list[i].win
    ensures var d, w, next := list[i].dpy, list[i].win, Remove(list, j);
      && Find(next, token) == i - 1 && next[i - 1] == list[i] && |next| == |list| - 1
      && OtherWindows(next[..i - 1], d, w) == OtherWindows(list[..i], d, w) && next[i..] == list[i + 1..]
  {
    hide OtherWindows;
    var next := Remove(list, j);
    RemoveIsValid(list, j);
    FindAgain(next, token, i - 1);
    assert next[..i - 1] == Remove(list[..i], j);
    RemoveFiltered(list[..i], j, list[i].dpy, list[i].win);
  }

  lemma FreedLast(list: seq<Rec>, token: nat)
    requires Valid(list) && Find(list, token) < |list| && list[Find(list, token)].win != 0
    requires var i := Find(list, token); FindWindow(list, list[i].dpy, list[i].win) >= i && list[i].refcnt <= 1
    ensures var i := Find(list, token); var next := Freed(list, list[i].dpy, list[i].win);
      Find(next, token) == |next| && next == OtherWindows(list[..i], list[i].dpy, list[i].win) + list[i + 1..]
  {
    var i := Find(list, token);
    var d, w := list[i].dpy, list[i].win;
    assert FindWindow(list, d, w) == i;
    FindNone(Freed(list, d, w), token);
    FilterAll(list[..i], (r: Rec) => !(r.dpy == d && r.win == w));
  }

  lemma RemoveFiltered(list: seq<Rec>, j: nat, d: int, w: int)
    requires j < |list| && list[j].dpy == d && list[j].win == w
    ensures OtherWindows(Remove(list, j), d, w) == OtherWindows(list, d, w)
  {
    var keep := (r: Rec) => !(r.dpy == d && r.win == w);
    assert list == list[..j] + ([list[j]] + list[j + 1..]);
    FilterConcat(list[..j], [list[j]] + list[j + 1..], keep);
    FilterConcat(list[..j], list[j + 1..], keep);
  }

  lemma FindAgain(list: seq<Rec>, token: nat, i: nat)
    requires Valid(list) && i < |list| && list[i].token == token
    ensures Find(list, token) == i
  {
  }

  lemma FoundWindow(list: seq<Rec>, dpy: int, win: int, i: nat)
    requires i < |list| && list[i].dpy == dpy && list[i].win == win
    requires forall r :: r in list[..i] ==> !(r.dpy == dpy && r.win == win)
    ensures FindWindow(list, dpy, win) == i
  {
    forall j | 0 <= j < i ensures !(list[j].dpy == dpy && list[j].win == win) {
      assert list[..i][j] == list[j];
    }
  }

  lemma NotFoundWindow(list: seq<Rec>, dpy: int, win: int)
    requires forall r :: r in list ==> !(r.dpy == dpy && r.win == win)
    ensures FindWindow(list, dpy, win) == |list|
  {
    assert forall j :: 0 <= j < |list| ==> list[j] in list;
  }

  lemma FindNone(list: seq<Rec>, token: nat)
    requires forall j :: 0 <= j < |list| ==> list[j].token != token
    ensures Find(list, token) == |list|
  {
  }

  lemma SameButCount(list: seq<Rec>, j: nat, n: nat, d: int, w: int)
    requires j < |list| && list[j].dpy == d && list[j].win == w
    ensures OtherWindows(list[j := list[j].(refcnt := n)], d, w) == OtherWindows(list, d, w)
  {
    var m := list[j].(refcnt := n);
    RemoveFiltered(list, j, d, w);
    RemoveFiltered(list[j := m], j, d, w);
    assert Remove(list[j := m], j) == Remove(list, j);
  }

  // ---------- The program ----------

  class WinList {
    var list: seq<Rec>

    constructor ()
      ensures list == []
    {
      list := [];
    }

    /** _dga_is_X_window: where the token's record is. */
    method IsXWindow(token: nat) returns (i: nat)
      ensures i == Find(list, token)
    {
      i := 0;
      while i < |list| && list[i].token != token
        invariant i <= |list| && Find(list, token) == i + Find(list[i..], token)
      {
        assert list[i..][1..] == list[i + 1..];
        i := i + 1;
      }
    }

    /** dga_winlist_free. Its loop runs in one of two ways, settled by whether the window is null. */
    method Free(dpy: int, win: int) returns (matched: bool)
      requires Valid(list)
      modifies this
      ensures Valid(list) && list == Freed(old(list), dpy, win)
      ensures matched <==> exists r :: r in old(list) && r.dpy == dpy && (win == 0 || r.win == win)
    {
      FreedIsValid(list, dpy, win);
      if win == 0 { matched := FreeDisplay(dpy); } else { matched := FreeWindow(dpy, win); }
    }

    /** The loop for a null window: unlink every record of the display. */
    method FreeDisplay(dpy: int) returns (matched: bool)
      modifies this
      ensures list == OtherDisplays(old(list), dpy)
      ensures matched <==> exists r :: r in old(list) && r.dpy == dpy
    {
      matched := false;
      var i := 0;
      ghost var k, hit := 0, 0;    // records of the old list passed so far, and one of them that matched
      while i < |list|
        invariant i <= |list| && k <= |old(list)| && list[i..] == old(list)[k..]
        invariant list[..i] == OtherDisplays(old(list)[..k], dpy)
        invariant matched ==> hit < k && old(list)[hit].dpy == dpy
        invariant !matched ==> forall j :: 0 <= j < k ==> old(list)[j].dpy != dpy
        decreases |list| - i
      {
        var r := list[i];
        assert r == list[i..][0] == old(list)[k];
        assert old(list)[..k + 1] == old(list)[..k] + [r];
        FilterConcat(old(list)[..k], [r], (r: Rec) => r.dpy != dpy);
        if r.dpy == dpy {
          list := Remove(list, i);
          matched, hit := true, k;
        } else {
          i := i + 1;
        }
        k := k + 1;
      }
      assert old(list)[..k] == old(list) && list[..i] == list;
    }

    /** The loop for a window: lower the count of its first record, and unlink the record at zero. */
    method FreeWindow(dpy: int, win: int) returns (matched: bool)
      requires win != 0 && Valid(list)
      modifies this
      ensures list == Freed(old(list), dpy, win)
      ensures matched <==> exists r :: r in old(list) && r.dpy == dpy && r.win == win
    {
      for i := 0 to |list|
        invariant list == old(list)
        invariant forall r :: r in list[..i] ==> !(r.dpy == dpy && r.win == win)
      {
        var r := list[i];
        assert r in list;
        if r.dpy == dpy && r.win == win {
          FoundWindow(list, dpy, win, i);
          if r.refcnt - 1 == 0 {
            list := Remove(list, i);
          } else {
            list := list[i := r.(refcnt := r.refcnt - 1)];
          }
          return true;
        }
      }
      assert list[..|list|] == list;
      NotFoundWindow(list, dpy, win);
      matched := false;
    }

    /** dga_winlist_add; memory says whether a new record can be allocated. */
    method Add(token: nat, dpy: int, win: int, memory: bool) returns (ok: bool)
      requires Valid(list)
      modifies this
      ensures Valid(list)
      ensures var p := Purged(old(list), token, dpy, win); var i := Find(p, token);
        if i < |p| then ok && list == p[i := p[i].(refcnt := p[i].refcnt + 1)]
        else if memory then ok && list == [Rec(token, dpy, win, 1)] + p
        else !ok && list == p
      ensures ok ==> Find(list, token) < |list| && list[Find(list, token)].dpy == dpy && list[Find(list, token)].win == win
      ensures ok && StandsFor(old(list), token, dpy, win) ==>
        forall d, w :: Uses(list, d, w) == Uses(old(list), d, w) + if d == dpy && w == win then 1 else 0
    {
      hide Find, Sum, Freed, Valid, Purged, Uses, StandsFor;
      if StandsFor(list, token, dpy, win) { AddedUses(list, token, dpy, win); }
      while true
        invariant Valid(list) && Purged(list, token, dpy, win) == Purged(old(list), token, dpy, win)
        decreases Sum(list)
      {
        var i := IsXWindow(token);
        if i == |list| { break; }
        var r := list[i];
        if win == r.win && dpy == r.dpy {
          PurgeEnds(list, token, dpy, win);
          CountRaised(list, token);
          list := list[i := r.(refcnt := r.refcnt + 1)];
          return true;
        }
        // the token stands for another window: free that one and look again
        PurgeStep(list, token, dpy, win);
        var _ := Free(r.dpy, r.win);
      }
      PurgeEnds(list, token, dpy, win);
      if !memory { return false; }
      NewInFront(list, token, dpy, win);
      list := [Rec(token, dpy, win, 1)] + list;
      ok := true;
    }
  }
}
