/** The backtracking search of dispswitch that gives every enabled output a CRTC. */
module CrtcSearch {
  import opened Display
  import opened Machine

  // ---------- What an assignment is, independent of the search ----------

  /** The part of an output the search reads and never changes. */
  datatype Desc = Desc(id: Output, xid: int, enabled: bool, clones: seq<int>,
                       crtcs: seq<Crtc>, current: Crtc?, agreeing: set<Crtc>)

  type Assignment = seq<Crtc?>

  /** The outputs, the connected ones among them, and their descriptions. */
  datatype Problem = Problem(outs: seq<Desc>, con: seq<Output>)

  /** Output number |p| may take CRTC c when the outputs before it are assigned by p:
      it can clone each connected, enabled output already driven by c. */
  ghost predicate CanUse(q: Problem, p: Assignment, c: Crtc)
    requires |p| < |q.outs|
  {
    && c in q.outs[|p|].agreeing
    && forall j :: 0 <= j < |p| && q.outs[j].id in q.con && q.outs[j].enabled && p[j] == c
         ==> q.outs[j].xid in q.outs[|p|].clones
  }

  ghost predicate ValidAt(q: Problem, a: Assignment, k: nat)
    requires k < |a| && |a| <= |q.outs|
  {
    a[k] != null ==> q.outs[k].enabled && a[k] in q.outs[k].crtcs && CanUse(q, a[..k], a[k])
  }

  ghost predicate ValidFrom(q: Problem, a: Assignment, k: nat)
    requires |a| == |q.outs|
  {
    forall i :: k <= i < |a| ==> ValidAt(q, a, i)
  }

  /** An assignment of every output that respects the one-way clone relation. */
  ghost predicate Valid(q: Problem, older a: Assignment)
  {
    |a| == |q.outs| && (forall i :: 0 <= i < |a| ==> a[i] == null || a[i] in q.outs[i].crtcs) && ValidFrom(q, a, 0)
  }

  function Gain(d: Desc, c: Crtc?): nat {
    if c == null then 0 else if c == d.current then 1001 else 1000
  }

  /** The score of outputs k and later. */
  function ScoreFrom(q: Problem, a: Assignment, k: nat): nat
    requires |a| == |q.outs| && k <= |a|
    decreases |a| - k
  {
    if k == |a| then 0 else Gain(q.outs[k], a[k]) + ScoreFrom(q, a, k + 1)
  }

  // ---------- The choice the search makes ----------

  /** The assignment the search settles on when the outputs before |p| are fixed to p. */
  ghost function Best(q: Problem, p: Assignment): (a: Assignment)
    requires |p| <= |q.outs|
    ensures |a| == |q.outs| && a[..|p|] == p
    decreases |q.outs| - |p|, 1, 0
  {
    if |p| == |q.outs| then p
    else if !q.outs[|p|].enabled then
      var a := Best(q, p + [null]);
      assert a[..|p|] == a[..|p| + 1][..|p|];
      a
    else
      var a := Best(q, p + [Pick(q, p, |q.outs[|p|].crtcs|)]);
      assert a[..|p|] == a[..|p| + 1][..|p|];
      a
  }

  /** The best choice for output |p| among "off" and its first m CRTCs; the first best wins. */
  ghost function Pick(q: Problem, p: Assignment, m: nat): Crtc?
    requires |p| < |q.outs| && m <= |q.outs[|p|].crtcs|
    decreases |q.outs| - |p|, 0, m
  {
    if m == 0 then null
    else
      var best := Pick(q, p, m - 1);
      var c := q.outs[|p|].crtcs[m - 1];
      if CanUse(q, p, c) && ScoreFrom(q, Best(q, p + [c]), |p|) > ScoreFrom(q, Best(q, p + [best]), |p|)
      then c else best
  }

  lemma {:induction false} PickValid(q: Problem, p: Assignment, m: nat)
    requires |p| < |q.outs| && m <= |q.outs[|p|].crtcs|
    ensures var c := Pick(q, p, m); c != null ==> c in q.outs[|p|].crtcs && CanUse(q, p, c)
  {
    if m > 0 { PickValid(q, p, m - 1); }
  }

  /** The choice made is at least as good as "off" and as every usable CRTC. */
  lemma {:induction false} PickBeats(q: Problem, p: Assignment, m: nat, c: Crtc?)
    requires |p| < |q.outs| && m <= |q.outs[|p|].crtcs|
    requires c != null ==> c in q.outs[|p|].crtcs[..m] && CanUse(q, p, c)
    ensures ScoreFrom(q, Best(q, p + [c]), |p|) <= ScoreFrom(q, Best(q, p + [Pick(q, p, m)]), |p|)
    decreases m
  {
    if m > 0 {
      if c != null && c !in q.outs[|p|].crtcs[..m - 1] {
        assert c == q.outs[|p|].crtcs[m - 1];
      } else {
        PickBeats(q, p, m - 1, c);
      }
    }
  }

  /** What the search returns is valid wherever it had a choice. */
  lemma {:induction false} BestValid(q: Problem, p: Assignment)
    requires |p| <= |q.outs|
    ensures ValidFrom(q, Best(q, p), |p|)
    decreases |q.outs| - |p|
  {
    if |p| < |q.outs| {
      var c := if q.outs[|p|].enabled then Pick(q, p, |q.outs[|p|].crtcs|) else null;
      var a := Best(q, p + [c]);
      BestValid(q, p + [c]);
      PickValid(q, p, |q.outs[|p|].crtcs|);
      assert a[|p|] == a[..|p| + 1][|p|] == c;
      assert Best(q, p) == a;
      assert a[..|p|] == p;
    }
  }

  lemma BestIsValid(q: Problem)
    ensures Valid(q, Best(q, []))
  {
    BestValid(q, []);
    var a := Best(q, []);
    forall i | 0 <= i < |a| ensures a[i] == null || a[i] in q.outs[i].crtcs {
      assert ValidAt(q, a, i);
    }
  }

  /** ... and no valid completion of the same prefix scores higher. */
  lemma {:induction false} BestMaximal(q: Problem, p: Assignment, a: Assignment)
    requires |p| <= |q.outs| == |a| && a[..|p|] == p
    requires ValidFrom(q, a, |p|)
    ensures ScoreFrom(q, a, |p|) <= ScoreFrom(q, Best(q, p), |p|)
    decreases |q.outs| - |p|
  {
    var k := |p|;
    if k < |q.outs| {
      var c := a[k];
      assert ValidAt(q, a, k);
      var next := p + [c];
      assert a[..k + 1] == next;
      BestMaximal(q, next, a);
      var b := Best(q, next);
      assert b[k] == b[..k + 1][k] == c;
      if q.outs[k].enabled {
        assert q.outs[k].crtcs[..|q.outs[k].crtcs|] == q.outs[k].crtcs;
        PickBeats(q, p, |q.outs[k].crtcs|, c);
      }
    }
  }

  // ---------- What maximising the score means ----------

  function LitFrom(a: Assignment, k: nat): nat
    requires k <= |a|
    decreases |a| - k
  {
    if k == |a| then 0 else (if a[k] != null then 1 else 0) + LitFrom(a, k + 1)
  }

  function KeptFrom(q: Problem, a: Assignment, k: nat): nat
    requires |a| == |q.outs| && k <= |a|
    decreases |a| - k
  {
    if k == |a| then 0
    else (if a[k] != null && a[k] == q.outs[k].current then 1 else 0) + KeptFrom(q, a, k + 1)
  }

  function EnabledFrom(q: Problem, k: nat): nat
    requires k <= |q.outs|
    decreases |q.outs| - k
  {
    if k == |q.outs| then 0 else (if q.outs[k].enabled then 1 else 0) + EnabledFrom(q, k + 1)
  }

  /** So few enabled outputs that the bonuses for kept CRTCs never outweigh one more output. */
  predicate FewEnabled(q: Problem) {
    EnabledFrom(q, 0) <= 1000
  }

  ghost predicate LightsAll(q: Problem, a: Assignment)
    requires |a| == |q.outs|
  {
    forall k :: 0 <= k < |a| && q.outs[k].enabled ==> a[k] != null
  }

  /** Some valid assignment lights every enabled output. */
  ghost predicate Lightable(q: Problem) {
    exists a :: Valid(q, a) && LightsAll(q, a)
  }

  lemma {:induction false} ScoreCounts(q: Problem, a: Assignment, k: nat)
    requires |a| == |q.outs| && k <= |a| && ValidFrom(q, a, k)
    ensures ScoreFrom(q, a, k) == 1000 * LitFrom(a, k) + KeptFrom(q, a, k)
    ensures KeptFrom(q, a, k) <= LitFrom(a, k) <= EnabledFrom(q, k)
    ensures LitFrom(a, k) == EnabledFrom(q, k) <==> forall i :: k <= i < |a| && q.outs[i].enabled ==> a[i] != null
    decreases |a| - k
  {
    if k < |a| {
      ScoreCounts(q, a, k + 1);
      assert ValidAt(q, a, k);
    }
  }

  /** With at most 1000 enabled outputs the search lights as many outputs as any valid
      assignment can, and among those keeps as many current CRTCs as possible. */
  lemma SearchIsLexicographic(q: Problem, a: Assignment)
    requires FewEnabled(q) && Valid(q, a)
    ensures var b := Best(q, []);
      && Valid(q, b)
      && (LitFrom(a, 0) < LitFrom(b, 0)
          || (LitFrom(a, 0) == LitFrom(b, 0) && KeptFrom(q, a, 0) <= KeptFrom(q, b, 0)))
  {
    var b := Best(q, []);
    BestIsValid(q);
    BestMaximal(q, [], a);
    ScoreCounts(q, a, 0);
    ScoreCounts(q, b, 0);
  }

  /** Hence it lights every enabled output exactly when some valid assignment does. */
  lemma SearchLightsAllIffPossible(q: Problem)
    requires FewEnabled(q)
    ensures LightsAll(q, Best(q, [])) <==> Lightable(q)
  {
    BestIsValid(q);
    var b := Best(q, []);
    if a :| Valid(q, a) && LightsAll(q, a) {
      SearchIsLexicographic(q, a);
      ScoreCounts(q, a, 0);
      ScoreCounts(q, b, 0);
    }
  }

  // ---------- The program ----------

  /** The second half of check_crtc_for_output: a CRTC that already drives an enabled output
      must be set up the way this output wants it. */
  ghost predicate Agrees(c: Crtc, o: Output)
    reads c, (set p | p in c.outputs :: p)`mode, o`mode, o`x, o`y, o`rotation
  {
    (exists p :: p in c.outputs && p.mode.Some?)
    ==> c.mode == o.mode && c.x == o.x && c.y == o.y && c.rotation == o.rotation
  }

  ghost predicate DescribesOne(d: Desc, o: Output)
    reads o`mode, o`current, o`x, o`y, o`rotation
    reads set c | c in o.crtcs :: c
    reads (set c, p | c in o.crtcs && p in c.outputs :: p)`mode
  {
    && d.id == o && d.xid == o.xid && d.enabled == o.mode.Some? && d.clones == o.clones
    && d.crtcs == o.crtcs && d.current == o.current
    && forall c :: c in o.crtcs ==> (c in d.agreeing <==> Agrees(c, o))
  }

  /** q describes the output list and the connected outputs as they are now. */
  ghost predicate Describes(q: Problem, outs: seq<Output>, con: seq<Output>)
    reads (set o | o in outs)`mode, (set o | o in outs)`current
    reads (set o | o in outs)`x, (set o | o in outs)`y, (set o | o in outs)`rotation
    reads set o, c | o in outs && c in o.crtcs :: c
    reads (set o, c, p | o in outs && c in o.crtcs && p in c.outputs :: p)`mode
  {
    && |q.outs| == |outs| && q.con == con
    && (forall i, j :: 0 <= i < j < |outs| ==> outs[i] != outs[j])
    && (forall o :: o in con ==> o in outs)
    && forall i :: 0 <= i < |outs| ==> DescribesOne(q.outs[i], outs[i])
  }

  /** The CRTC now given to each output. */
  ghost function Assigned(outs: seq<Output>): (a: Assignment)
    reads outs`crtc
    ensures |a| == |outs| && forall i :: 0 <= i < |outs| ==> a[i] == outs[i].crtc
  {
    if outs == [] then [] else Assigned(outs[..|outs| - 1]) + [outs[|outs| - 1].crtc]
  }

  method CheckCrtcForOutput(c: Crtc, o: Output, con: seq<Output>) returns (ok: bool)
    ensures ok <==>
      && (forall p :: p in con && p != o && p.mode.Some? && p.crtc == c ==> p.xid in o.clones)
      && Agrees(c, o)
  {
    for i := 0 to |con|
      invariant forall p :: p in con[..i] && p != o && p.mode.Some? && p.crtc == c ==> p.xid in o.clones
    {
      var other := con[i];
      if other != o && other.mode.Some? && other.crtc == c {
        var l := 0;
        while l < |o.clones| && o.clones[l] != other.xid
          invariant l <= |o.clones| && other.xid !in o.clones[..l]
        {
          l := l + 1;
        }
        if l == |o.clones| {
          assert other in con;
          return false;
        }
      }
    }
    assert con[..|con|] == con;
    for i := 0 to |c.outputs|
      invariant forall p :: p in c.outputs[..i] && p.mode.Some? ==>
        c.mode == o.mode && c.x == o.x && c.y == o.y && c.rotation == o.rotation
    {
      if c.outputs[i].mode.Some? {
        if c.mode != o.mode || c.x != o.x || c.y != o.y || c.rotation != o.rotation {
          assert c.outputs[i] in c.outputs;
          return false;
        }
      }
    }
    assert c.outputs[..|c.outputs|] == c.outputs;
    return true;
  }

  method DisableOutputs(outs: seq<Output>, con: seq<Output>, k: nat, ghost q: Problem)
    requires k <= |outs| && Describes(q, outs, con)
    modifies outs`crtc
    ensures Describes(q, outs, con)
    ensures forall i :: k <= i < |outs| ==> outs[i].crtc == null
    ensures Assigned(outs)[..k] == old(Assigned(outs)[..k])
  {
    for i := k to |outs|
      invariant forall j :: k <= j < i ==> outs[j].crtc == null
      invariant forall j :: 0 <= j < k ==> outs[j].crtc == old(outs[j].crtc)
    {
      outs[i].crtc := null;
    }
  }

  method SetCrtc(outs: seq<Output>, con: seq<Output>, k: nat, ghost q: Problem, c: Crtc?)
    requires k < |outs| && Describes(q, outs, con)
    modifies outs`crtc
    ensures Describes(q, outs, con)
    ensures Assigned(outs)[..k + 1] == old(Assigned(outs)[..k]) + [c]
  {
    outs[k].crtc := c;
  }

  /** With later outputs off, the check decides exactly CanUse for the prefix. */
  lemma CheckDecides(q: Problem, outs: seq<Output>, con: seq<Output>, k: nat, c: Crtc)
    requires Describes(q, outs, con) && k < |outs| && c in outs[k].crtcs
    requires forall i :: k < i < |outs| ==> outs[i].crtc == null
    ensures CanUse(q, Assigned(outs)[..k], c) <==>
      && (forall p :: p in con && p != outs[k] && p.mode.Some? && p.crtc == c ==> p.xid in outs[k].clones)
      && Agrees(c, outs[k])
  {
    hide Describes, DescribesOne, Agrees;
    var a := Assigned(outs);
    DescribesAt(q, outs, con, k);
    if CanUse(q, a[..k], c) {
      forall p | p in con && p != outs[k] && p.mode.Some? && p.crtc == c ensures p.xid in outs[k].clones {
        var j := IndexOf(q, outs, con, p);
        DescribesAt(q, outs, con, j);
        assert a[..k][j] == c;
      }
    } else if c in q.outs[k].agreeing {
      var j :| 0 <= j < k && q.outs[j].id in q.con && q.outs[j].enabled && a[j] == c && q.outs[j].xid !in q.outs[k].clones;
      DescribesAt(q, outs, con, j);
    }
  }

  lemma IndexOf(q: Problem, outs: seq<Output>, con: seq<Output>, o: Output) returns (j: nat)
    requires Describes(q, outs, con) && o in con
    ensures j < |outs| && outs[j] == o
  {
    assert o in outs;
    j :| j < |outs| && outs[j] == o;
  }

  lemma DescribesAt(q: Problem, outs: seq<Output>, con: seq<Output>, k: nat)
    requires Describes(q, outs, con)
    ensures |q.outs| == |outs| && q.con == con
    ensures k < |outs| ==> q.outs[k].enabled == outs[k].mode.Some? && q.outs[k].crtcs == outs[k].crtcs
    ensures k < |outs| ==> q.outs[k].id == outs[k] && q.outs[k].xid == outs[k].xid && q.outs[k].clones == outs[k].clones
    ensures k < |outs| ==> q.outs[k].current == outs[k].current
    ensures k < |outs| ==> forall c :: c in outs[k].crtcs ==> (c in q.outs[k].agreeing <==> Agrees(c, outs[k]))
    ensures k < |outs| ==> forall j :: 0 <= j < |outs| && j != k ==> outs[j] != outs[k]
  {
    assert k < |outs| ==> DescribesOne(q.outs[k], outs[k]);
  }

  lemma BestGives(q: Problem, p: Assignment, c: Crtc?)
    requires |p| < |q.outs|
    ensures var a := Best(q, p + [c]);
      && a[..|p|] == p
      && ScoreFrom(q, a, |p|) == ScoreFrom(q, a, |p| + 1) +
           if c == null then 0 else if c == q.outs[|p|].current then 1001 else 1000
  {
    var a := Best(q, p + [c]);
    assert a[|p|] == a[..|p| + 1][|p|];
    assert a[..|p|] == a[..|p| + 1][..|p|];
  }

  /** c is the best choice among "off" and the first i CRTCs, with the given score. */
  ghost predicate BestOf(q: Problem, p: Assignment, i: nat, c: Crtc?, score: int)
    requires |p| < |q.outs|
  {
    i <= |q.outs[|p|].crtcs| && c == Pick(q, p, i) && score == ScoreFrom(q, Best(q, p + [c]), |p|)
  }

  lemma BestOfStart(q: Problem, p: Assignment)
    requires |p| < |q.outs|
    ensures BestOf(q, p, 0, null, ScoreFrom(q, Best(q, p + [null]), |p|))
  {
  }

  lemma BestOfStep(q: Problem, p: Assignment, i: nat, best: Crtc?, bestScore: int, usable: bool, score: int)
    requires |p| < |q.outs| && i < |q.outs[|p|].crtcs| && BestOf(q, p, i, best, bestScore)
    requires usable <==> CanUse(q, p, q.outs[|p|].crtcs[i])
    requires usable ==> score == ScoreFrom(q, Best(q, p + [q.outs[|p|].crtcs[i]]), |p|)
    ensures if usable && score > bestScore then BestOf(q, p, i + 1, q.outs[|p|].crtcs[i], score)
            else BestOf(q, p, i + 1, best, bestScore)
  {
  }

  lemma BestUnfolds(q: Problem, p: Assignment)
    requires |p| <= |q.outs|
    ensures |p| == |q.outs| ==> Best(q, p) == p && ScoreFrom(q, p, |p|) == 0
    ensures |p| < |q.outs| && !q.outs[|p|].enabled ==> Best(q, p) == Best(q, p + [null])
  {
  }

  lemma BestOfEnd(q: Problem, p: Assignment, best: Crtc?, bestScore: int)
    requires |p| < |q.outs| && q.outs[|p|].enabled
    requires BestOf(q, p, |q.outs[|p|].crtcs|, best, bestScore)
    ensures Best(q, p) == Best(q, p + [best]) && bestScore == ScoreFrom(q, Best(q, p), |p|)
  {
  }

  /** pick_crtcs_score: the state it leaves and the score it returns depend only on the
      prefix already fixed, and are the ones of Best. */
  method PickCrtcsScore(outs: seq<Output>, con: seq<Output>, k: nat, ghost q: Problem) returns (bestScore: int)
    requires k <= |outs| && Describes(q, outs, con)
    modifies outs`crtc
    ensures Describes(q, outs, con)
    ensures Assigned(outs) == Best(q, old(Assigned(outs)[..k]))
    ensures bestScore == ScoreFrom(q, Assigned(outs), k)
    decreases |outs| - k, 2
  {
    hide *;
    ghost var p := Assigned(outs)[..k];
    DescribesAt(q, outs, con, k);
    BestUnfolds(q, p);
    if k == |outs| {
      assert Assigned(outs) == p;
      return 0;
    }
    bestScore := Give(outs, con, k, q, null);
    if outs[k].mode == None { return; }
    BestOfStart(q, p);
    var bestCrtc: Crtc? := null;
    for i := 0 to |outs[k].crtcs|
      invariant Describes(q, outs, con) && Assigned(outs)[..k] == p
      invariant BestOf(q, p, i, bestCrtc, bestScore)
    {
      var c := outs[k].crtcs[i];
      var usable, score := TryCrtc(outs, con, k, q, c);
      BestOfStep(q, p, i, bestCrtc, bestScore, usable, score);
      if usable && score > bestScore {
        bestCrtc, bestScore := c, score;
      }
    }
    BestOfEnd(q, p, bestCrtc, bestScore);
    var _ := Give(outs, con, k, q, bestCrtc);
  }

  /** One round of the loop over the CRTCs of output k. */
  method TryCrtc(outs: seq<Output>, con: seq<Output>, k: nat, ghost q: Problem, c: Crtc)
    returns (usable: bool, score: int)
    requires k < |outs| && Describes(q, outs, con) && c in outs[k].crtcs
    modifies outs`crtc
    ensures Describes(q, outs, con)
    ensures Assigned(outs)[..k] == old(Assigned(outs)[..k])
    ensures usable <==> CanUse(q, old(Assigned(outs)[..k]), c)
    ensures usable ==> score == ScoreFrom(q, Best(q, old(Assigned(outs)[..k]) + [c]), k)
    decreases |outs| - k, 1
  {
    hide *;
    score := 0;
    // with nothing behind k lit, the check looks at the prefix only
    ghost var p := Assigned(outs)[..k];
    DisableOutputs(outs, con, k + 1, q);
    assert Assigned(outs)[..k] == Assigned(outs)[..k + 1][..k] == p;
    CheckDecides(q, outs, con, k, c);
    usable := CheckCrtcForOutput(c, outs[k], con);
    if usable { score := Give(outs, con, k, q, c); }
  }

  /** Assigns c to output k and searches the outputs after it. */
  method Give(outs: seq<Output>, con: seq<Output>, k: nat, ghost q: Problem, c: Crtc?) returns (score: int)
    requires k < |outs| && Describes(q, outs, con)
    modifies outs`crtc
    ensures Describes(q, outs, con)
    ensures Assigned(outs) == Best(q, old(Assigned(outs)[..k]) + [c])
    ensures Assigned(outs)[..k] == old(Assigned(outs)[..k])
    ensures score == ScoreFrom(q, Assigned(outs), k)
    decreases |outs| - k, 0
  {
    hide *;
    ghost var p := Assigned(outs)[..k];
    DescribesAt(q, outs, con, k);
    BestGives(q, p, c);
    SetCrtc(outs, con, k, q, c);
    var rest := PickCrtcsScore(outs, con, k + 1, q);
    // among equals an output stays where it is
    var myScore := if c == null then 0 else if c == outs[k].current then 1000 + 1 else 1000;
    score := myScore + rest;
  }

  // ---------- pick_crtcs ----------

  lemma Describe(outs: seq<Output>, con: seq<Output>) returns (q: Problem)
    requires forall i, j :: 0 <= i < j < |outs| ==> outs[i] != outs[j]
    requires forall o :: o in con ==> o in outs
    ensures Describes(q, outs, con)
  {
    var ds: seq<Desc> := [];
    for i := 0 to |outs|
      invariant |ds| == i
      invariant forall j :: 0 <= j < i ==> DescribesOne(ds[j], outs[j])
    {
      var o := outs[i];
      ds := ds + [Desc(o, o.xid, o.mode.Some?, o.clones, o.crtcs, o.current, set c | c in o.crtcs && Agrees(c, o))];
    }
    q := Problem(ds, con);
  }

  function FirstByXid(outs: seq<Output>, xid: int): (o: Output?)
    ensures o == null <==> forall p :: p in outs ==> p.xid != xid
    ensures o != null ==> exists i ::
      0 <= i < |outs| && outs[i] == o && o.xid == xid && forall j :: 0 <= j < i ==> outs[j].xid != xid
  {
    if outs == [] then null else if outs[0].xid == xid then outs[0] else FirstByXid(outs[1..], xid)
  }

  method FindOutputByXid(outs: seq<Output>, xid: int) returns (o: Output?)
    ensures o == FirstByXid(outs, xid)
  {
    for i := 0 to |outs|
      invariant FirstByXid(outs, xid) == FirstByXid(outs[i..], xid)
    {
      assert outs[i..][1..] == outs[i + 1..];
      if outs[i].xid == xid { return outs[i]; }
    }
    return null;
  }

  /** What check_crtc_for_output says of c for o, when the outputs have the CRTCs of at. */
  ghost predicate Passes(c: Crtc, o: Output, con: seq<Output>, at: map<Output, Crtc?>)
    reads (set p | p in con)`mode, c, (set p | p in c.outputs :: p)`mode, o`mode, o`x, o`y, o`rotation
  {
    && (forall p :: p in con && p != o && p.mode.Some? && p in at && at[p] == c ==> p.xid in o.clones)
    && Agrees(c, o)
  }

  ghost function CrtcsOf(con: seq<Output>): map<Output, Crtc?>
    reads (set o | o in con)`crtc
  {
    map o | o in con :: o.crtc
  }

  /** Of the CRTCs of o from number i on, none before c passes the check. */
  ghost predicate Earliest(c: Crtc, o: Output, con: seq<Output>, at: map<Output, Crtc?>, i: nat)
    reads (set p | p in con)`mode, o`mode, o`x, o`y, o`rotation
    reads set c | c in o.crtcs :: c
    reads (set c, p | c in o.crtcs && p in c.outputs :: p)`mode
  {
    exists j :: i <= j < |o.crtcs| && c == o.crtcs[j] &&
      forall l :: i <= l < j ==> o.crtcs[l] in o.crtcs && !Passes(o.crtcs[l], o, con, at)
  }

  /** The first CRTC of o, from number i on, that passes the check. */
  ghost function FirstFor(o: Output, con: seq<Output>, at: map<Output, Crtc?>, i: nat): (c: Crtc?)
    requires i <= |o.crtcs|
    reads (set p | p in con)`mode, o`mode, o`x, o`y, o`rotation
    reads set c | c in o.crtcs :: c
    reads (set c, p | c in o.crtcs && p in c.outputs :: p)`mode
    ensures c == null ==> forall j :: i <= j < |o.crtcs| ==> o.crtcs[j] in o.crtcs && !Passes(o.crtcs[j], o, con, at)
    ensures c != null ==> c in o.crtcs && Passes(c, o, con, at) && Earliest(c, o, con, at, i)
    decreases |o.crtcs| - i
  {
    if i == |o.crtcs| then null
    else if o.crtcs[i] in o.crtcs && Passes(o.crtcs[i], o, con, at) then o.crtcs[i]
    else FirstFor(o, con, at, i + 1)
  }

  method FindCrtcForOutput(o: Output, con: seq<Output>) returns (c: Crtc?)
    ensures c == FirstFor(o, con, CrtcsOf(con), 0)
    ensures c == null ==> forall k :: k in o.crtcs ==> !Passes(k, o, con, CrtcsOf(con))
    ensures c != null ==> c in o.crtcs && Passes(c, o, con, CrtcsOf(con)) && Earliest(c, o, con, CrtcsOf(con), 0)
  {
    hide Agrees, Earliest;
    for i := 0 to |o.crtcs|
      invariant FirstFor(o, con, CrtcsOf(con), 0) == FirstFor(o, con, CrtcsOf(con), i)
    {
      var ok := CheckCrtcForOutput(o.crtcs[i], o, con);
      assert ok <==> Passes(o.crtcs[i], o, con, CrtcsOf(con));
      if ok { return o.crtcs[i]; }
    }
    return null;
  }

  /** c shows something now, and not just on o. */
  predicate Contested(outs: seq<Output>, o: Output, c: Crtc) {
    var used := c.reported.outputs;
    |used| > 0 && (|used| > 1 || o != FirstByXid(outs, used[0]))
  }

  method CheckContested(outs: seq<Output>, o: Output, c: Crtc) returns (contested: bool)
    ensures contested <==> Contested(outs, o, c)
  {
    var used := c.reported.outputs;
    if |used| == 0 { return false; }
    if |used| > 1 { return true; }
    var owner := FindOutputByXid(outs, used[0]);
    return o != owner;
  }

  /** An enabled output that the simple match cannot serve: its CRTC shows something else too, or it has
      none and none of its own passes the check. */
  ghost predicate Stuck(outs: seq<Output>, con: seq<Output>, at: map<Output, Crtc?>, o: Output)
    reads (set p | p in con)`mode, o`mode, o`x, o`y, o`rotation
    reads set c | c in o.crtcs :: c
    reads (set c, p | c in o.crtcs && p in c.outputs :: p)`mode
  {
    && o.mode.Some? && o in at
    && (at[o] != null ==> Contested(outs, o, at[o]))
    && (at[o] == null ==> forall c :: c in o.crtcs ==> !Passes(c, o, con, at))
  }

  /** Two enabled connected outputs on one CRTC, one of them just picked: one can clone the other. */
  ghost predicate PickedCanClone(con: seq<Output>, picked: set<Output>)
    reads con`mode, con`crtc
  {
    forall o, p :: o in con && p in con && o != p && o in picked && o.mode.Some? && p.mode.Some?
      && o.crtc != null && o.crtc == p.crtc
      ==> p.xid in o.clones || (p in picked && o.xid in p.clones)
  }

  lemma IsStuck(outs: seq<Output>, con: seq<Output>, o: Output)
    requires o in con && o.mode.Some?
    requires if o.crtc != null then Contested(outs, o, o.crtc)
             else forall c :: c in o.crtcs ==> !Passes(c, o, con, CrtcsOf(con))
    ensures Stuck(outs, con, CrtcsOf(con), o)
  {
  }

  lemma NonePicked(con: seq<Output>)
    ensures PickedCanClone(con, {})
  {
  }

  /** How the simple match ends: the CRTCs given, and whether every output is served. */
  datatype Matched = Matched(at: map<Output, Crtc?>, happy: bool)

  /** The simple match from output number i on. */
  ghost function MatchUp(outs: seq<Output>, con: seq<Output>, at: map<Output, Crtc?>, i: nat): Matched
    requires i <= |con| && forall o :: o in con ==> o in at
    reads (set o | o in con)`mode, (set o | o in con)`x, (set o | o in con)`y, (set o | o in con)`rotation
    reads set o, c | o in con && c in o.crtcs :: c
    reads (set o, c, p | o in con && c in o.crtcs && p in c.outputs :: p)`mode
    decreases |con| - i
  {
    if i == |con| then Matched(at, true)
    else
      var o := con[i];
      if o.mode.None? then MatchUp(outs, con, at, i + 1)
      else if at[o] != null then
        if Contested(outs, o, at[o]) then Matched(at, false) else MatchUp(outs, con, at, i + 1)
      else
        var c := FirstFor(o, con, at, 0);
        if c == null then Matched(at, false) else MatchUp(outs, con, at[o := c], i + 1)
  }

  lemma MatchStep(outs: seq<Output>, con: seq<Output>, at: map<Output, Crtc?>, i: nat)
    requires i <= |con| && forall o :: o in con ==> o in at
    ensures i == |con| ==> MatchUp(outs, con, at, i) == Matched(at, true)
    ensures i < |con| ==>
      var o := con[i];
      MatchUp(outs, con, at, i) ==
        if o.mode.None? then MatchUp(outs, con, at, i + 1)
        else if at[o] != null then
          if Contested(outs, o, at[o]) then Matched(at, false) else MatchUp(outs, con, at, i + 1)
        else if FirstFor(o, con, at, 0) == null then Matched(at, false)
        else MatchUp(outs, con, at[o := FirstFor(o, con, at, 0)], i + 1)
  {
  }

  /** Gives o the first of its CRTCs that passes the check, if there is one. */
  method TakeSpare(o: Output, con: seq<Output>, ghost picked: set<Output>) returns (c: Crtc?)
    requires o in con && o.mode.Some? && o.crtc == null && PickedCanClone(con, picked)
    modifies o`crtc
    ensures o.crtc == c && (c != null ==> c in o.crtcs && PickedCanClone(con, picked + {o}))
    ensures c == null ==> forall k :: k in o.crtcs ==> !Passes(k, o, con, CrtcsOf(con))
    ensures c == FirstFor(o, con, old(CrtcsOf(con)), 0) && CrtcsOf(con) == old(CrtcsOf(con))[o := c]
  {
    hide Agrees, FirstFor;
    c := FindCrtcForOutput(o, con);
    o.crtc := c;
  }

  /** The simple match for output number i. */
  method MatchOne(outs: seq<Output>, con: seq<Output>, ghost i: nat, o: Output, ghost picked: set<Output>)
    returns (served: bool, ghost now: set<Output>)
    requires i < |con| && con[i] == o && PickedCanClone(con, picked)
    modifies o`crtc
    ensures PickedCanClone(con, now)
    ensures if o.mode.Some? && old(o.crtc) == null && served then now == picked + {o} && o.crtc in o.crtcs
            else now == picked && o.crtc == old(o.crtc)
    ensures served && o.mode.Some? ==> o.crtc != null && (old(o.crtc) != null ==> !Contested(outs, o, o.crtc))
    ensures !served ==> Stuck(outs, con, CrtcsOf(con), o)
    ensures old(MatchUp(outs, con, CrtcsOf(con), i)) ==
      if served then MatchUp(outs, con, CrtcsOf(con), i + 1) else Matched(CrtcsOf(con), false)
  {
    hide Contested, Stuck, Passes, PickedCanClone, FirstFor, MatchUp;
    assert o in con;
    MatchStep(outs, con, CrtcsOf(con), i);
    served, now := true, picked;
    if o.mode.Some? {
      if o.crtc != null {
        var contested := CheckContested(outs, o, o.crtc);
        if contested {
          IsStuck(outs, con, o);
          served := false;
        }
      } else {
        var c := TakeSpare(o, con, picked);
        if c == null {
          IsStuck(outs, con, o);
          served := false;
        } else {
          now := picked + {o};
        }
      }
    }
  }

  /** The first part of pick_crtcs: every output keeps its CRTC, and one without takes any that passes. */
  method MatchSpare(outs: seq<Output>, con: seq<Output>)
    returns (happy: bool, ghost picked: set<Output>, ghost stuck: Output?)
    requires forall i, j :: 0 <= i < j < |con| ==> con[i] != con[j]
    requires forall o :: o in con ==> o in outs
    modifies outs`crtc
    ensures happy ==> forall o :: o in con && o.mode.Some? ==> o.crtc != null
    ensures happy ==> forall o :: o in con && o.mode.Some? && o !in picked ==> !Contested(outs, o, o.crtc)
    ensures !happy ==> stuck != null && stuck in con && stuck !in picked && Stuck(outs, con, CrtcsOf(con), stuck)
    ensures PickedCanClone(con, picked)
    ensures forall o :: o in outs && o !in picked ==> o.crtc == old(o.crtc)
    ensures forall o :: o in picked ==> o in con && old(o.crtc) == null && o.crtc != null && o.crtc in o.crtcs
    ensures old(MatchUp(outs, con, CrtcsOf(con), 0)) == Matched(CrtcsOf(con), happy)
  {
    hide Contested, Stuck, Passes, PickedCanClone, FirstFor, Earliest, MatchUp;
    picked, stuck := {}, null;
    NonePicked(con);
    ghost var result := MatchUp(outs, con, CrtcsOf(con), 0);
    for i := 0 to |con|
      invariant PickedCanClone(con, picked)
      invariant forall o :: o in con[..i] && o.mode.Some? ==> o.crtc != null
      invariant forall o :: o in con[..i] && o.mode.Some? && o !in picked ==> !Contested(outs, o, o.crtc)
      invariant forall o :: o in outs && o !in picked ==> o.crtc == old(o.crtc)
      invariant forall o :: o in picked ==> o in con[..i] && old(o.crtc) == null && o.crtc != null && o.crtc in o.crtcs
      invariant MatchUp(outs, con, CrtcsOf(con), i) == result
    {
      assert con[i] in con && con[i] !in con[..i] && con[..i + 1] == con[..i] + [con[i]];
      var served;
      served, picked := MatchOne(outs, con, i, con[i], picked);
      if !served { return false, picked, con[i]; }
    }
    assert con[..|con|] == con;
    MatchStep(outs, con, CrtcsOf(con), |con|);
    happy := true;
  }

  /** pick_crtcs: when the search had to run (searched) there was an output stuck, and q describes the
      outputs at that moment. */
  method PickCrtcs(outs: seq<Output>, con: seq<Output>)
    returns (ok: bool, ghost searched: bool, ghost picked: set<Output>, ghost stuck: Output?, ghost q: Problem)
    requires forall i, j :: 0 <= i < j < |outs| ==> outs[i] != outs[j]
    requires forall i, j :: 0 <= i < j < |con| ==> con[i] != con[j]
    requires forall o :: o in con ==> o in outs
    modifies outs`crtc, outs`current
    ensures ok ==> forall o :: o in con && o.mode.Some? ==> o.crtc != null
    ensures !searched ==> ok && PickedCanClone(con, picked)
    ensures !searched ==> forall o :: o in con && o.mode.Some? && o !in picked ==> !Contested(outs, o, o.crtc)
    ensures searched ==> stuck != null && stuck in con && stuck !in picked && Stuck(outs, con, CurrentOf(con), stuck)
    ensures !searched ==> forall o :: o in con && o !in picked ==> o.crtc == old(o.crtc)
    ensures forall o :: o in picked ==> o in con && old(o.crtc) == null
    ensures forall o :: o in outs && o.crtc != null ==> o.crtc in o.crtcs || o.crtc == old(o.crtc)
    ensures searched ==> Describes(q, outs, con) && Valid(q, Assigned(outs)) && Assigned(outs) == Best(q, [])
    ensures searched && FewEnabled(q) ==> (ok <==> Lightable(q))
    ensures old(MatchUp(outs, con, CrtcsOf(con), 0)) == Matched(if searched then CurrentOf(con) else CrtcsOf(con), !searched)
  {
    hide *;
    var happy;
    assert forall o :: o in con ==> o in outs;
    happy, picked, stuck := MatchSpare(outs, con);
    q := Problem([], []);
    if happy { return true, false, picked, null, q; }

    ghost var at := CrtcsOf(con);
    searched := true;
    ok, q := Search(outs, con);
    assert Stuck(outs, con, at, stuck);
  }

  /** The second part of pick_crtcs: see whether CRTCs can be swapped around. */
  method Search(outs: seq<Output>, con: seq<Output>) returns (ok: bool, ghost q: Problem)
    requires forall i, j :: 0 <= i < j < |outs| ==> outs[i] != outs[j]
    requires forall o :: o in con ==> o in outs
    modifies outs`crtc, outs`current
    ensures CurrentOf(con) == old(CrtcsOf(con))
    ensures ok ==> forall o :: o in con && o.mode.Some? ==> o.crtc != null
    ensures forall o :: o in outs && o.crtc != null ==> o.crtc in o.crtcs
    ensures Describes(q, outs, con) && Valid(q, Assigned(outs)) && Assigned(outs) == Best(q, [])
    ensures FewEnabled(q) ==> (ok <==> Lightable(q))
  {
    hide *;
    NoteCurrent(outs, con);
    q := Describe(outs, con);
    var _ := PickCrtcsScore(outs, con, 0, q);
    SearchOutcome(q, outs, con);
    ok := AllLit(outs);
  }

  /** q describes the outputs, with no CRTC set up for any of them yet. */
  ghost predicate FreshProblem(q: Problem, outs: seq<Output>, con: seq<Output>)
    reads (set o | o in outs)`mode, (set o | o in outs)`current
  {
    && |q.outs| == |outs| && q.con == con
    && forall i :: 0 <= i < |outs| ==>
         var d, o := q.outs[i], outs[i];
         && d.id == o && d.xid == o.xid && d.enabled == o.mode.Some? && d.clones == o.clones
         && d.crtcs == o.crtcs && d.current == o.current && forall c :: c in o.crtcs ==> c in d.agreeing
  }

  lemma NothingSetUp(q: Problem, outs: seq<Output>, con: seq<Output>)
    requires Describes(q, outs, con) && forall o, c :: o in outs && c in o.crtcs ==> c.outputs == []
    ensures FreshProblem(q, outs, con)
  {
    forall i | 0 <= i < |outs|
      ensures var d, o := q.outs[i], outs[i];
        && d.id == o && d.xid == o.xid && d.enabled == o.mode.Some? && d.clones == o.clones
        && d.crtcs == o.crtcs && d.current == o.current && forall c :: c in o.crtcs ==> c in d.agreeing
    {
      assert DescribesOne(q.outs[i], outs[i]) && outs[i] in outs;
    }
  }

  ghost function CurrentOf(con: seq<Output>): map<Output, Crtc?>
    reads (set o | o in con)`current
  {
    map o | o in con :: o.current
  }

  method NoteCurrent(outs: seq<Output>, con: seq<Output>)
    requires forall o :: o in con ==> o in outs
    modifies outs`current
    ensures forall o :: o in outs ==> o.current == o.crtc
    ensures CurrentOf(con) == CrtcsOf(con)
  {
    for i := 0 to |outs|
      invariant forall j :: 0 <= j < i ==> outs[j].current == outs[j].crtc
    {
      outs[i].current := outs[i].crtc;
    }
  }

  method AllLit(outs: seq<Output>) returns (ok: bool)
    ensures ok <==> forall j :: 0 <= j < |outs| && outs[j].mode.Some? ==> outs[j].crtc != null
  {
    for i := 0 to |outs|
      invariant forall j :: 0 <= j < i && outs[j].mode.Some? ==> outs[j].crtc != null
    {
      if outs[i].mode.Some? && outs[i].crtc == null { return false; }
    }
    ok := true;
  }

  lemma EveryEnabledIsLit(q: Problem, outs: seq<Output>, con: seq<Output>)
    requires Describes(q, outs, con)
    ensures |q.outs| == |outs|
    ensures LightsAll(q, Assigned(outs)) <==> forall j :: 0 <= j < |outs| && outs[j].mode.Some? ==> outs[j].crtc != null
  {
    assert forall j :: 0 <= j < |outs| ==> DescribesOne(q.outs[j], outs[j]);
  }

  lemma AssignedAreUsable(q: Problem, outs: seq<Output>, con: seq<Output>)
    requires Describes(q, outs, con) && Valid(q, Assigned(outs))
    ensures forall o :: o in outs && o.crtc != null ==> o.crtc in o.crtcs
  {
    forall o | o in outs && o.crtc != null ensures o.crtc in o.crtcs {
      var j :| 0 <= j < |outs| && outs[j] == o;
      assert DescribesOne(q.outs[j], o) && ValidAt(q, Assigned(outs), j);
    }
  }

  lemma SearchOutcome(q: Problem, outs: seq<Output>, con: seq<Output>)
    requires Describes(q, outs, con) && Assigned(outs) == Best(q, [])
    ensures Valid(q, Assigned(outs))
    ensures forall o :: o in outs && o.crtc != null ==> o.crtc in o.crtcs
    ensures FewEnabled(q) ==>
      (Lightable(q) <==> forall j :: 0 <= j < |outs| && outs[j].mode.Some? ==> outs[j].crtc != null)
  {
    hide Describes, Best, ScoreFrom;
    BestIsValid(q);
    AssignedAreUsable(q, outs, con);
    EveryEnabledIsLit(q, outs, con);
    if FewEnabled(q) { SearchLightsAllIffPossible(q); }
  }

  // ---------- Two outputs ----------

  /** The simple match serves not both: a has no CRTC, or all that b has is a's, and b cannot clone a. */
  predicate CannotServe(a: Output, b: Output) {
    a.crtcs == [] || (forall c :: c in b.crtcs ==> c == a.crtcs[0] && a.xid !in b.clones)
  }

  predicate Before(outs: seq<Output>, a: Output, b: Output) {
    exists i, j :: 0 <= i < j < |outs| && outs[i] == a && outs[j] == b
  }

  /** The two are given one CRTC: both begin with it and b can clone a; or b has no other and cannot clone
      a, but comes first in the search, and a can clone b. */
  predicate WillShare(outs: seq<Output>, a: Output, b: Output) {
    && a.crtcs != [] && b.crtcs != []
    && if a.xid in b.clones then b.crtcs[0] == a.crtcs[0]
       else (forall c :: c in b.crtcs ==> c == a.crtcs[0]) && b.xid in a.clones && Before(outs, b, a)
  }

  /** Two outputs are connected and enabled, and no other output is enabled. */
  ghost predicate OnlyTwo(outs: seq<Output>, con: seq<Output>)
    reads (set o | o in outs)`mode, (set o | o in con)`mode
  {
    && |con| == 2 && con[0] != con[1] && con[0].mode.Some? && con[1].mode.Some?
    && con[0] in outs && con[1] in outs && forall o :: o in outs && o.mode.Some? ==> o in con
  }

  lemma MatchTwo(outs: seq<Output>, con: seq<Output>)
    requires |con| == 2 && con[0] != con[1] && con[0].mode.Some? && con[1].mode.Some?
    requires forall o, c :: o in con && c in o.crtcs ==> c.outputs == []
    ensures var a, b := con[0], con[1]; var m := MatchUp(outs, con, map[a := null, b := null], 0);
      && (m.happy <==> !CannotServe(a, b))
      && a in m.at && b in m.at && (m.happy ==> (m.at[a] == m.at[b] <==> WillShare(outs, a, b)))
      && (!m.happy && a.crtcs != [] ==> m.at[a] == a.crtcs[0] && m.at[b] == null)
  {
    hide MatchUp, Before;
    var a, b := con[0], con[1];
    var at: map<Output, Crtc?> := map[a := null, b := null];
    assert forall o :: o in con <==> o == a || o == b;
    MatchStep(outs, con, at, 0);
    FirstOfFirst(a, con, at);
    if a.crtcs != [] {
      var at1 := at[a := a.crtcs[0]];
      MatchStep(outs, con, at1, 1);
      FirstOfSecond(a, b, con, at1);
      var c := FirstFor(b, con, at1, 0);
      if c != null { MatchStep(outs, con, at1[b := c], 2); }
    }
  }

  lemma FirstOfFirst(a: Output, con: seq<Output>, at: map<Output, Crtc?>)
    requires forall c :: c in a.crtcs ==> c.outputs == []
    requires forall p :: p in at ==> at[p] == null
    ensures FirstFor(a, con, at, 0) == if a.crtcs == [] then null else a.crtcs[0]
  {
    if a.crtcs != [] { assert a.crtcs[0] in a.crtcs && Passes(a.crtcs[0], a, con, at); }
  }

  lemma FirstOfSecond(a: Output, b: Output, con: seq<Output>, at: map<Output, Crtc?>)
    requires forall c :: c in b.crtcs ==> c.outputs == []
    requires a != b && a in con && a.mode.Some? && a in at && at[a] != null
    requires forall p :: p in at && p != a ==> at[p] == null
    ensures var c := FirstFor(b, con, at, 0);
      && (c == null <==> forall d :: d in b.crtcs ==> d == at[a] && a.xid !in b.clones)
      && (c == at[a] <==> a.xid in b.clones && b.crtcs != [] && b.crtcs[0] == at[a])
  {
    hide FirstFor;
    forall d | d in b.crtcs ensures Passes(d, b, con, at) <==> d != at[a] || a.xid in b.clones {
    }
    FirstIs(b, con, at);
  }

  lemma FirstIs(o: Output, con: seq<Output>, at: map<Output, Crtc?>)
    ensures o.crtcs != [] ==>
      o.crtcs[0] in o.crtcs && (Passes(o.crtcs[0], o, con, at) ==> FirstFor(o, con, at, 0) == o.crtcs[0])
  {
    hide Passes;
  }

  /** What changing one choice does to the score. */
  lemma {:induction false} ScoreUpdate(q: Problem, a: Assignment, i: nat, c: Crtc?, k: nat)
    requires i < |a| == |q.outs| && k <= |a|
    ensures ScoreFrom(q, a[i := c], k) == ScoreFrom(q, a, k) + if k <= i then Gain(q.outs[i], c) - Gain(q.outs[i], a[i]) else 0
    decreases |a| - k
  {
    if k < |a| { ScoreUpdate(q, a, i, c, k + 1); }
  }

  /** The search, when the simple match could not serve b and had given a the first of its CRTCs. */
  lemma SearchTwo(q: Problem, outs: seq<Output>, con: seq<Output>, i: nat, j: nat)
    requires OnlyTwo(outs, con) && FreshProblem(q, outs, con) && i < |outs| && j < |outs|
    requires forall m, n :: 0 <= m < n < |outs| ==> outs[m] != outs[n]
    requires outs[i] == con[0] && outs[j] == con[1] && CannotServe(con[0], con[1]) && con[0].crtcs != []
    requires con[0].current == con[0].crtcs[0]
    requires var best := Best(q, []); best[i] != null && best[j] != null
    ensures var best := Best(q, []); best[i] == best[j] <==> WillShare(outs, con[0], con[1])
  {
    hide Best, ScoreFrom, Valid;
    var a, b, best := con[0], con[1], Best(q, []);
    var c := a.crtcs[0];
    BestIsValid(q);
    ValidParts(q, best, i);
    ValidParts(q, best, j);
    assert best[j] == c && a.xid !in b.clones;
    if best[i] == c {
      BothOnOne(q, best, i, j);
    } else if WillShare(outs, a, b) {
      var m, n :| 0 <= m < n < |outs| && outs[m] == b && outs[n] == a;
      var better := best[i := c];
      BetterIsValid(q, outs, con, best, i, j);
      BestMaximal(q, [], better);
      ScoreUpdate(q, best, i, c, 0);
    }
  }

  lemma BetterIsValid(q: Problem, outs: seq<Output>, con: seq<Output>, a: Assignment, i: nat, j: nat)
    requires OnlyTwo(outs, con) && FreshProblem(q, outs, con) && |a| == |q.outs| && ValidFrom(q, a, 0)
    requires forall m, n :: 0 <= m < n < |outs| ==> outs[m] != outs[n]
    requires j < i < |outs| && outs[i] == con[0] && outs[j] == con[1]
    requires con[0].crtcs != [] && con[1].xid in con[0].clones
    ensures ValidFrom(q, a[i := con[0].crtcs[0]], 0)
  {
    var c := con[0].crtcs[0];
    var better := a[i := c];
    forall k | 0 <= k < |a| ensures ValidAt(q, better, k) {
      assert ValidAt(q, a, k);
      if k < i {
        assert better[..k] == a[..k];
      } else if k == i {
        assert c in con[0].crtcs;
        forall m | 0 <= m < i && q.outs[m].id in q.con && q.outs[m].enabled && better[..i][m] == c
          ensures q.outs[m].xid in con[0].clones
        {
          assert outs[m] == con[0] || outs[m] == con[1];
        }
      }
    }
  }

  lemma ValidParts(q: Problem, a: Assignment, k: nat)
    requires Valid(q, a) && k < |a|
    ensures |a| == |q.outs| && ValidFrom(q, a, 0) && (a[k] != null ==> a[k] in q.outs[k].crtcs && q.outs[k].enabled)
  {
    assert ValidAt(q, a, k);
  }

  lemma BothOnOne(q: Problem, a: Assignment, i: nat, j: nat)
    requires |a| == |q.outs| && ValidFrom(q, a, 0) && i < |a| && j < |a| && i != j && a[i] == a[j] != null
    requires q.outs[i].id in q.con && q.outs[i].enabled && q.outs[j].id in q.con && q.outs[j].enabled
    ensures if i < j then q.outs[i].xid in q.outs[j].clones else q.outs[j].xid in q.outs[i].clones
  {
    var later, sooner := if i < j then j else i, if i < j then i else j;
    assert ValidAt(q, a, later);
    assert a[..later][sooner] == a[sooner];
  }
}
