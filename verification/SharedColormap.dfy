/** The colormap shadow libdga shares with the server: three planes of stuttered 16-bit cells and a
    plane of change flags, standing for three plain maps from index to byte. */
module SharedColormap {
  import opened Machine

  type Short = s: int | -0x8000 <= s < 0x8000

  // ---------- Cells ----------

  /** Conversion of an int to a C short. */
  function ToShort(n: int): Short {
    var w := n % 0x1_0000;
    if w < 0x8000 then w else w - 0x1_0000
  }

  /** b | b << 8, stored in a short; the two halves share no bit, so the "or" is a sum. */
  function Stutter(b: Byte): Short {
    ToShort(b + b * 256)
  }

  /** s >> 8, an arithmetic shift, stored in an unsigned char. */
  function HighByte(s: Short): Byte {
    (s / 256) % 256
  }

  lemma By256(q: int, r: Byte)
    ensures (256 * q + r) / 256 == q && (256 * q + r) % 256 == r
  {
  }

  /** Both halves of the cell are the byte. Bytes of 128 and more survive too: their cells are negative
      shorts. */
  lemma StutterKeepsByte(b: Byte)
    ensures HighByte(Stutter(b)) == b && Stutter(b) % 256 == b
    ensures b >= 128 <==> Stutter(b) < 0
  {
    assert 0 <= 256 * b + b < 0x1_0000;
    if b < 128 {
      By256(b, b);
    } else {
      assert Stutter(b) == 256 * (b - 256) + b;
      By256(b - 256, b);
      By256(-1, b);
    }
  }

  function HighBytes(a: seq<Short>): (s: seq<Byte>)
    ensures |s| == |a| && forall i :: 0 <= i < |a| ==> s[i] == HighByte(a[i])
  {
    if a == [] then [] else [HighByte(a[0])] + HighBytes(a[1..])
  }

  // ---------- What a write does to one plane ----------

  /** How many cells a request for count cells from index touches in a map of n. */
  function Clipped(n: nat, index: nat, count: int): (r: nat)
    ensures r == 0 || index + r <= n
  {
    var c := if index + count > n then n - index else count;
    if c > 0 then c else 0
  }

  /** The cells it touches are those asked for that exist. */
  lemma ClippedReaches(n: nat, index: nat, count: int, i: nat)
    ensures index <= i < index + Clipped(n, index, count) <==> index <= i < index + count && i < n
  {
  }

  function Overwrite(s: seq<Byte>, index: nat, src: seq<Byte>, n: nat): (t: seq<Byte>)
    requires n <= |src| && (n == 0 || index + n <= |s|)
    ensures |t| == |s|
    ensures forall i :: 0 <= i < |s| ==> t[i] == if index <= i < index + n then src[i - index] else s[i]
  {
    if n == 0 then s else s[..index] + src[..n] + s[index + n..]
  }

  /** Of the cells from index on, as many as are asked for and exist hold what src says; the others are
      as before. */
  ghost predicate Rewritten(now: seq<Byte>, before: seq<Byte>, index: nat, count: int, src: seq<Byte>) {
    && |now| == |before|
    && forall i :: 0 <= i < |now| ==>
         if index <= i < index + count then i - index < |src| && now[i] == src[i - index] else now[i] == before[i]
  }

  lemma NothingOverwritten(s: seq<Byte>, index: nat, src: seq<Byte>)
    ensures Overwrite(s, index, src, 0) == s
  {
  }

  lemma OverwriteRewrites(before: seq<Byte>, index: nat, count: int, src: seq<Byte>)
    requires Clipped(|before|, index, count) <= |src|
    ensures Rewritten(Overwrite(before, index, src, Clipped(|before|, index, count)), before, index, count, src)
  {
  }

  /** The valid range recorded after writing n cells from index. */
  datatype Range = Range(start: int, len: int)

  predicate InRange(r: Range, i: int) {
    r.start <= i < r.start + r.len
  }

  function Extend(r: Range, index: nat, n: nat): Range {
    var start := if index < r.start then index else r.start;
    var len := if index + n > start + r.len then index + n - start else r.len;
    Range(start, len)
  }

  /** The new range covers the cells just written, and lies within the span of those and the old range.
      It still covers the old range exactly when the write does not begin before it, or reaches its end. */
  lemma ExtendCovers(r: Range, index: nat, n: nat)
    requires n > 0
    ensures forall i :: index <= i < index + n ==> InRange(Extend(r, index, n), i)
    ensures forall i :: InRange(Extend(r, index, n), i) ==> Min(r.start, index) <= i < Max(r.start + r.len, index + n)
    ensures (forall i :: InRange(r, i) ==> InRange(Extend(r, index, n), i)) <==>
      r.len <= 0 || index >= r.start || index + n >= r.start + r.len
  {
    if r.len > 0 && index < r.start && index + n < r.start + r.len {
      var last := r.start + r.len - 1;
      assert InRange(r, last) && !InRange(Extend(r, index, n), last);
    }
  }

  // ---------- The shared page ----------

  class Grabbedcmap {
    const reallen: nat
    const shadow: array<Short>   // red cells, then green, then blue
    const flags: array<Byte>
    var start: int
    var len: int
    var count: nat               // change count
    var lockCount: nat
    var locked: bool             // the lock word
    var seenCount: nat           // the client's c_chngcnt

    ghost predicate Valid()
      reads this
    {
      && shadow.Length == 3 * reallen && flags.Length == reallen && shadow as object != flags as object
      && (locked <==> lockCount > 0)
    }

    /** A page of a colormap of this size, with the range the server has made valid. */
    constructor (reallen: nat, start: int, len: int)
      ensures Valid() && this.reallen == reallen && fresh(shadow) && fresh(flags) && lockCount == 0
      ensures Range(this.start, this.len) == Range(start, len) && count == 0
    {
      this.reallen, shadow, flags := reallen, new Short[3 * reallen], new Byte[reallen];
      this.start, this.len, count, lockCount, locked, seenCount := start, len, 0, 0, false, 0;
    }

    /** Where plane p starts in the shadow: 0 is red, 1 green, 2 blue. */
    function Base(p: nat): nat
      requires p < 3
    {
      if p == 0 then 0 else if p == 1 then reallen else 2 * reallen
    }

    /** The map a plane stands for. */
    ghost function Plane(p: nat): (s: seq<Byte>)
      requires shadow.Length == 3 * reallen && p < 3
      reads shadow
      ensures |s| == reallen && forall i :: 0 <= i < reallen ==> s[i] == HighByte(shadow[Base(p) + i])
    {
      HighBytes(shadow[Base(p)..Base(p) + reallen])
    }

    /** Both halves of every cell are the same byte. */
    ghost predicate Stuttered()
      reads shadow
    {
      forall j :: 0 <= j < shadow.Length ==> shadow[j] % 256 == HighByte(shadow[j])
    }

    method Lock()
      requires Valid()
      modifies this`lockCount, this`locked
      ensures Valid() && lockCount == old(lockCount) + 1
    {
      if lockCount == 0 { locked := true; }
      lockCount := lockCount + 1;
    }

    method Unlock()
      requires Valid() && lockCount > 0
      modifies this`lockCount, this`locked
      ensures Valid() && lockCount == old(lockCount) - 1
    {
      lockCount := lockCount - 1;
      if lockCount == 0 { locked := false; }
    }

    method WritePlane(p: nat, index: nat, n: nat, src: seq<Byte>)
      requires Valid() && p < 3 && n <= |src| && (n > 0 ==> index + n <= reallen)
      modifies shadow
      ensures Plane(p) == Overwrite(old(Plane(p)), index, src, n)
      ensures forall q :: 0 <= q < 3 && q != p ==> Plane(q) == old(Plane(q))
      ensures old(Stuttered()) ==> Stuttered()
    {
      hide HighByte, HighBytes, Stutter;
      var base := Base(p) + index;
      for i := 0 to n
        invariant forall j :: 0 <= j < i ==> shadow[base + j] == Stutter(src[j])
        invariant forall j :: 0 <= j < shadow.Length && !(base <= j < base + i) ==> shadow[j] == old(shadow[j])
      {
        shadow[base + i] := Stutter(src[i]);
      }
      forall i | 0 <= i < n ensures HighByte(Stutter(src[i])) == Stutter(src[i]) % 256 == src[i] {
        StutterKeepsByte(src[i]);
      }
      forall j | base <= j < base + n ensures shadow[j] % 256 == HighByte(shadow[j]) {
        assert shadow[base + (j - base)] == Stutter(src[j - base]);
      }
      forall i | 0 <= i < reallen
        ensures Plane(p)[i] == if index <= i < index + n then src[i - index] else old(Plane(p))[i]
      {
        assert index <= i < index + n ==> shadow[base + (i - index)] == Stutter(src[i - index]);
      }
    }

    method RaiseFlags(index: nat, n: nat)
      requires Valid() && index + n <= reallen
      modifies flags
      ensures forall j :: 0 <= j < reallen ==> flags[j] == if index <= j < index + n then 1 else old(flags[j])
    {
      for i := 0 to n
        invariant forall j :: 0 <= j < reallen ==> flags[j] == if index <= j < index + i then 1 else old(flags[j])
      {
        flags[index + i] := 1;
      }
    }

    method ReadPlane(p: nat, index: nat, n: nat) returns (dst: seq<Byte>)
      requires Valid() && p < 3 && index + n <= reallen
      ensures dst == Plane(p)[index..index + n]
    {
      dst := [];
      for i := 0 to n
        invariant dst == Plane(p)[index..index + i]
      {
        dst := dst + [HighByte(shadow[Base(p) + index + i])];
      }
    }

    method WriteCells(index: nat, n: nat, red: seq<Byte>, green: seq<Byte>, blue: seq<Byte>)
      requires Valid() && index + n <= reallen && n <= |red| && n <= |green| && n <= |blue|
      modifies shadow, flags
      ensures Plane(0) == Overwrite(old(Plane(0)), index, red, n)
      ensures Plane(1) == Overwrite(old(Plane(1)), index, green, n)
      ensures Plane(2) == Overwrite(old(Plane(2)), index, blue, n)
      ensures forall i :: 0 <= i < reallen ==> flags[i] == if index <= i < index + n then 1 else old(flags[i])
      ensures old(Stuttered()) ==> Stuttered()
    {
      hide HighBytes, HighByte, Overwrite, Stuttered;
      WritePlane(0, index, n, red);
      WritePlane(1, index, n, green);
      WritePlane(2, index, n, blue);
      RaiseFlags(index, n);
    }

    /** dga_cm_put, without posting to the hardware. */
    method Put(index: nat, count0: int, red: seq<Byte>, green: seq<Byte>, blue: seq<Byte>)
      requires Valid()
      requires Clipped(reallen, index, count0) <= |red|
      requires Clipped(reallen, index, count0) <= |green| && Clipped(reallen, index, count0) <= |blue|
      modifies this, shadow, flags
      ensures Valid() && lockCount == old(lockCount)
      ensures Plane(0) == Overwrite(old(Plane(0)), index, red, Clipped(reallen, index, count0))
      ensures Plane(1) == Overwrite(old(Plane(1)), index, green, Clipped(reallen, index, count0))
      ensures Plane(2) == Overwrite(old(Plane(2)), index, blue, Clipped(reallen, index, count0))
      ensures forall i :: 0 <= i < reallen ==> flags[i] == if index <= i < index + count0 then 1 else old(flags[i])
      ensures Rewritten(Plane(0), old(Plane(0)), index, count0, red)
      ensures Rewritten(Plane(1), old(Plane(1)), index, count0, green)
      ensures Rewritten(Plane(2), old(Plane(2)), index, count0, blue)
      ensures old(Stuttered()) ==> Stuttered()
      ensures var n := Clipped(reallen, index, count0);
        && Range(start, len) == (if n > 0 then Extend(old(Range(start, len)), index, n) else old(Range(start, len)))
        && count == (if n > 0 then old(count) + 1 else old(count))
        && seenCount == (if n > 0 then count else old(seenCount))
    {
      hide HighBytes, HighByte, Plane, Overwrite, Rewritten, Stuttered;
      OverwriteRewrites(Plane(0), index, count0, red);
      OverwriteRewrites(Plane(1), index, count0, green);
      OverwriteRewrites(Plane(2), index, count0, blue);
      NothingOverwritten(Plane(0), index, red);
      NothingOverwritten(Plane(1), index, green);
      NothingOverwritten(Plane(2), index, blue);
      Lock();
      var c := if index + count0 > reallen then reallen - index else count0;
      if c > 0 {
        if index < start { start := index; }
        if index + c > start + len { len := index + c - start; }
        WriteCells(index, c, red, green, blue);
        count := count + 1;
        seenCount := count;
      }
      Unlock();
    }

    /** dga_cm_get. */
    method Get(index: nat, count0: int) returns (red: seq<Byte>, green: seq<Byte>, blue: seq<Byte>)
      requires Valid()
      modifies this`lockCount, this`locked
      ensures Valid() && lockCount == old(lockCount)
      ensures |red| == |green| == |blue| == Max(0, Min(count0, reallen - index))
      ensures var n := Clipped(reallen, index, count0);
        if n == 0 then red == green == blue == []
        else red == Plane(0)[index..index + n] && green == Plane(1)[index..index + n] && blue == Plane(2)[index..index + n]
    {
      Lock();
      red, green, blue := [], [], [];
      var c := if index + count0 > reallen then reallen - index else count0;
      if c > 0 {
        red := ReadPlane(0, index, c);
        green := ReadPlane(1, index, c);
        blue := ReadPlane(2, index, c);
      }
      Unlock();
    }
  }

  /** A run that loses the end of the valid range: in a map of four cells of which the last three are
      valid, putting the first one leaves the last one outside the recorded range. */
  method PutLosesEnd() returns (cm: Grabbedcmap)
    ensures fresh(cm) && cm.Valid() && cm.reallen == 4 && cm.count == 1
    ensures InRange(Range(1, 3), 3) && Range(cm.start, cm.len) == Extend(Range(1, 3), 0, 1)
    ensures !InRange(Range(cm.start, cm.len), 3)
  {
    cm := new Grabbedcmap(4, 1, 3);
    cm.Put(0, 1, [7], [7], [7]);
  }

  // ---------- Runs ----------

  datatype Write = Write(index: nat, count: int, src: seq<Byte>)

  predicate Fits(n: nat, w: Write) {
    Clipped(n, w.index, w.count) <= |w.src|
  }

  /** A plane after a run of writes. */
  function RunWrites(s: seq<Byte>, ws: seq<Write>): (t: seq<Byte>)
    requires forall w :: w in ws ==> Fits(|s|, w)
    ensures |t| == |s|
    decreases |ws|
  {
    if ws == [] then s
    else
      var w := ws[|ws| - 1];
      assert w in ws;
      assert Fits(|s|, w);
      var before := RunWrites(s, ws[..|ws| - 1]);
      Overwrite(before, w.index, w.src, Clipped(|before|, w.index, w.count))
  }

  /** A call of dga_cm_put. */
  datatype Request = Request(index: nat, count: int, red: seq<Byte>, green: seq<Byte>, blue: seq<Byte>)

  function Writes(rs: seq<Request>, p: nat): (ws: seq<Write>)
    ensures |ws| == |rs|
    ensures forall i :: 0 <= i < |rs| ==> ws[i] == Write(rs[i].index, rs[i].count, Source(rs[i], p))
  {
    seq(|rs|, i requires 0 <= i < |rs| => Write(rs[i].index, rs[i].count, Source(rs[i], p)))
  }

  function Source(r: Request, p: nat): seq<Byte> {
    if p == 0 then r.red else if p == 1 then r.green else r.blue
  }

  ghost predicate AllFit(n: nat, rs: seq<Request>) {
    forall i, p: nat :: 0 <= i < |rs| && p < 3 ==> Clipped(n, rs[i].index, rs[i].count) <= |Source(rs[i], p)|
  }

  /** Plane p has gone from before to now the way a plain map does under the same writes. */
  ghost predicate Follows(before: seq<Byte>, now: seq<Byte>, rs: seq<Request>, p: nat) {
    && (forall w :: w in Writes(rs, p) ==> Fits(|before|, w))
    && now == RunWrites(before, Writes(rs, p))
  }

  lemma FollowsNothing(s: seq<Byte>, p: nat)
    ensures Follows(s, s, [], p)
  {
  }

  lemma FollowsStep(before: seq<Byte>, now: seq<Byte>, rs: seq<Request>, i: nat, p: nat)
    requires i < |rs| && p < 3 && AllFit(|before|, rs) && Follows(before, now, rs[..i], p) && |now| == |before|
    ensures var r := rs[i]; var n := Clipped(|before|, r.index, r.count);
      n <= |Source(r, p)| && Follows(before, Overwrite(now, r.index, Source(r, p), n), rs[..i + 1], p)
  {
    hide Overwrite, Clipped;
    assert Clipped(|before|, rs[i].index, rs[i].count) <= |Source(rs[i], p)|;
    var ws := Writes(rs[..i + 1], p);
    assert ws[..i] == Writes(rs[..i], p);
    forall w | w in ws ensures Fits(|before|, w) {
      var j :| 0 <= j < |ws| && ws[j] == w;
      assert j < i ==> w == Writes(rs[..i], p)[j];
    }
  }

  /** Some request writes cell i. */
  ghost predicate Written(n: nat, rs: seq<Request>, i: nat) {
    exists j :: 0 <= j < |rs| && Covers(n, rs[j], i)
  }

  predicate Covers(n: nat, r: Request, i: nat) {
    r.index <= i < r.index + r.count && i < n
  }

  /** What the requests that write anything make of the recorded range, and how many they are. */
  function Extended(n: nat, r: Range, rs: seq<Request>): (Range, nat)
    decreases |rs|
  {
    if rs == [] then (r, 0)
    else
      var (before, k) := Extended(n, r, rs[..|rs| - 1]);
      var q := rs[|rs| - 1];
      var c := Clipped(n, q.index, q.count);
      if c > 0 then (Extend(before, q.index, c), k + 1) else (before, k)
  }

  lemma WrittenStep(n: nat, rs: seq<Request>, k: nat, i: nat)
    requires k < |rs|
    ensures Written(n, rs[..k + 1], i) <==> Written(n, rs[..k], i) || Covers(n, rs[k], i)
  {
    hide Covers;
    if Covers(n, rs[k], i) { assert rs[..k + 1][k] == rs[k]; }
    if Written(n, rs[..k], i) {
      var j :| 0 <= j < k && Covers(n, rs[..k][j], i);
      assert rs[..k + 1][j] == rs[..k][j];
    }
    if Written(n, rs[..k + 1], i) {
      var j :| 0 <= j < k + 1 && Covers(n, rs[..k + 1][j], i);
      if j < k { assert rs[..k][j] == rs[..k + 1][j]; }
    }
  }

  lemma ExtendedStep(n: nat, r: Range, rs: seq<Request>, k: nat)
    requires k < |rs|
    ensures var c := Clipped(n, rs[k].index, rs[k].count); var e := Extended(n, r, rs[..k]);
      Extended(n, r, rs[..k + 1]) == if c > 0 then (Extend(e.0, rs[k].index, c), e.1 + 1) else e
  {
    assert rs[..k + 1][..k] == rs[..k];
  }

  /** Any run of puts leaves each plane as the same run of writes leaves a plain map; it raises the flags
      of just the cells written, and extends range and change count once for each put that writes. */
  method PutAll(cm: Grabbedcmap, rs: seq<Request>)
    requires cm.Valid() && AllFit(cm.reallen, rs)
    modifies cm, cm.shadow, cm.flags
    ensures cm.Valid() && cm.lockCount == old(cm.lockCount)
    ensures Follows(old(cm.Plane(0)), cm.Plane(0), rs, 0)
    ensures Follows(old(cm.Plane(1)), cm.Plane(1), rs, 1)
    ensures Follows(old(cm.Plane(2)), cm.Plane(2), rs, 2)
    ensures forall i :: 0 <= i < cm.reallen ==> cm.flags[i] == if Written(cm.reallen, rs, i) then 1 else old(cm.flags[i])
    ensures (Range(cm.start, cm.len), cm.count - old(cm.count)) == Extended(cm.reallen, old(Range(cm.start, cm.len)), rs)
    ensures old(cm.Stuttered()) ==> cm.Stuttered()
  {
    hide Grabbedcmap.Stuttered, HighBytes, HighByte, Overwrite, Follows, AllFit, Written, Extended, Extend, Clipped;
    FollowsNothing(cm.Plane(0), 0);
    FollowsNothing(cm.Plane(1), 1);
    FollowsNothing(cm.Plane(2), 2);
    NothingWritten(cm.reallen, Range(cm.start, cm.len));
    for i := 0 to |rs|
      invariant cm.Valid() && cm.lockCount == old(cm.lockCount)
      invariant Follows(old(cm.Plane(0)), cm.Plane(0), rs[..i], 0)
      invariant Follows(old(cm.Plane(1)), cm.Plane(1), rs[..i], 1)
      invariant Follows(old(cm.Plane(2)), cm.Plane(2), rs[..i], 2)
      invariant forall j :: 0 <= j < cm.reallen ==>
        cm.flags[j] == if Written(cm.reallen, rs[..i], j) then 1 else old(cm.flags[j])
      invariant (Range(cm.start, cm.len), cm.count - old(cm.count)) ==
        Extended(cm.reallen, old(Range(cm.start, cm.len)), rs[..i])
      invariant old(cm.Stuttered()) ==> cm.Stuttered()
    {
      FollowsStep(old(cm.Plane(0)), cm.Plane(0), rs, i, 0);
      FollowsStep(old(cm.Plane(1)), cm.Plane(1), rs, i, 1);
      FollowsStep(old(cm.Plane(2)), cm.Plane(2), rs, i, 2);
      forall j: nat ensures Written(cm.reallen, rs[..i + 1], j) <==> Written(cm.reallen, rs[..i], j) || Covers(cm.reallen, rs[i], j) {
        WrittenStep(cm.reallen, rs, i, j);
      }
      ExtendedStep(cm.reallen, old(Range(cm.start, cm.len)), rs, i);
      cm.Put(rs[i].index, rs[i].count, rs[i].red, rs[i].green, rs[i].blue);
    }
    assert rs[..|rs|] == rs;
  }

  lemma NothingWritten(n: nat, r: Range)
    ensures (forall i: nat :: !Written(n, [], i)) && Extended(n, r, []) == (r, 0)
  {
  }

  /** How many of the writes have been done when cell i has been touched for the last time. */
  function LastTouch(n: nat, ws: seq<Write>, i: nat): (k: nat)
    ensures k <= |ws| && (k > 0 ==> Touches(n, ws[k - 1], i)) && forall j :: k <= j < |ws| ==> !Touches(n, ws[j], i)
    decreases |ws|
  {
    if ws == [] then 0
    else if Touches(n, ws[|ws| - 1], i) then |ws|
    else LastTouch(n, ws[..|ws| - 1], i)
  }

  /** The byte of the last write that touches cell i, or the one it held at first. */
  function ByteAt(s: seq<Byte>, ws: seq<Write>, i: nat): Byte
    requires i < |s| && forall w :: w in ws ==> Fits(|s|, w)
  {
    var k := LastTouch(|s|, ws, i);
    if k == 0 then s[i]
    else
      assert ws[k - 1] in ws && Fits(|s|, ws[k - 1]);
      ws[k - 1].src[i - ws[k - 1].index]
  }

  /** The bytes read from cell index on are those of the last writes. */
  ghost predicate ReadsLast(s: seq<Byte>, rs: seq<Request>, p: nat, index: nat, dst: seq<Byte>) {
    && (forall w :: w in Writes(rs, p) ==> Fits(|s|, w))
    && (forall j :: 0 <= j < |dst| ==> index + j < |s| && dst[j] == ByteAt(s, Writes(rs, p), index + j))
  }

  lemma CellIsLast(before: seq<Byte>, now: seq<Byte>, rs: seq<Request>, p: nat, i: nat)
    requires Follows(before, now, rs, p) && i < |now| == |before|
    ensures now[i] == ByteAt(before, Writes(rs, p), i)
  {
    hide Overwrite, Touches;
    var ws := Writes(rs, p);
    var k := LastTouch(|before|, ws, i);
    assert k > 0 ==> ws[k - 1] in ws;
    LastWriteWins(before, ws, i, k);
  }

  lemma SliceIsLast(before: seq<Byte>, now: seq<Byte>, rs: seq<Request>, p: nat, index: nat, n: nat)
    requires Follows(before, now, rs, p) && index + n <= |now| == |before|
    ensures ReadsLast(before, rs, p, index, now[index..index + n])
  {
    hide ByteAt, RunWrites;
    var dst := now[index..index + n];
    forall j | 0 <= j < |dst| ensures dst[j] == ByteAt(before, Writes(rs, p), index + j) {
      CellIsLast(before, now, rs, p, index + j);
    }
  }

  /** A get after any run of puts returns, for every cell it can reach, the byte of the last put that wrote
      it, or the one that was there. */
  method PutsThenGet(cm: Grabbedcmap, rs: seq<Request>, index: nat, count: int)
    returns (red: seq<Byte>, green: seq<Byte>, blue: seq<Byte>)
    requires cm.Valid() && AllFit(cm.reallen, rs)
    modifies cm, cm.shadow, cm.flags
    ensures cm.Valid() && |red| == |green| == |blue| == Max(0, Min(count, cm.reallen - index))
    ensures ReadsLast(old(cm.Plane(0)), rs, 0, index, red)
    ensures ReadsLast(old(cm.Plane(1)), rs, 1, index, green)
    ensures ReadsLast(old(cm.Plane(2)), rs, 2, index, blue)
  {
    hide HighBytes, HighByte, AllFit, Follows, ReadsLast, Written, Extended;
    ghost var r0, g0, b0 := cm.Plane(0), cm.Plane(1), cm.Plane(2);
    PutAll(cm, rs);
    red, green, blue := cm.Get(index, count);
    var n := Clipped(cm.reallen, index, count);
    if n > 0 {
      SliceIsLast(r0, cm.Plane(0), rs, 0, index, n);
      SliceIsLast(g0, cm.Plane(1), rs, 1, index, n);
      SliceIsLast(b0, cm.Plane(2), rs, 2, index, n);
    } else {
      NothingRead(r0, cm.Plane(0), rs, 0, index);
      NothingRead(g0, cm.Plane(1), rs, 1, index);
      NothingRead(b0, cm.Plane(2), rs, 2, index);
    }
  }

  lemma NothingRead(before: seq<Byte>, now: seq<Byte>, rs: seq<Request>, p: nat, index: nat)
    requires Follows(before, now, rs, p)
    ensures ReadsLast(before, rs, p, index, [])
  {
  }

  predicate Touches(n: nat, w: Write, i: nat) {
    w.index <= i < w.index + w.count && i < n
  }

  /** After any run, a cell holds the byte of the last write that touched it, or what it held at first. */
  lemma {:induction false} LastWriteWins(s: seq<Byte>, ws: seq<Write>, i: nat, k: nat)
    requires (forall w :: w in ws ==> Fits(|s|, w)) && i < |s| && k <= |ws|
    requires forall j :: k <= j < |ws| ==> !Touches(|s|, ws[j], i)
    requires k > 0 ==> ws[k - 1] in ws && Touches(|s|, ws[k - 1], i)
    ensures RunWrites(s, ws)[i] == if k > 0 then ws[k - 1].src[i - ws[k - 1].index] else s[i]
    decreases |ws|
  {
    if k < |ws| {
      assert !Touches(|s|, ws[|ws| - 1], i);
      LastWriteWins(s, ws[..|ws| - 1], i, k);
    }
  }
}
