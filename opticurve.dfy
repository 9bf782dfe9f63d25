/*
 * Stages 4 and 5 of the tracer (trace.c.cs): `reverse`, which turns a
 * curve around, and `opticurve`, which joins runs of consecutive Bezier
 * segments into single segments where that is possible.
 *
 * opticurve is a dynamic program over the m segments of pp.curve: for
 * each j in 1..m it finds the best way to reach j from 0, where "best"
 * means the fewest output segments and then the least penalty. Whether
 * segments i+1..j can be joined, the penalty of doing so and the
 * parameters of the joined segment come from `opti_penalty`, a
 * floating-point computation on the curve's geometry; here it is the
 * parameter `fit`, a function of i and j. Doubles are reals.
 */
module OptiCurve {
  import opened Auxiliary
  import opened Curve

  /* ---------------------------------------------------------------------- */
  /* reverse */

  /** s read backwards. */
  function Reversed<T>(s: seq<T>): (r: seq<T>)
    ensures |r| == |s|
  {
    if s == [] then [] else Reversed(s[1..]) + [s[0]]
  }

  /** The k-th entry of the reversal is the k-th entry from the back. */
  lemma {:induction false} ReversedAt<T>(s: seq<T>, k: int)
    requires 0 <= k < |s|
    ensures Reversed(s)[k] == s[|s| - 1 - k]
    decreases |s|
  {
    if k < |s| - 1 {
      ReversedAt(s[1..], k);
    }
  }

  /** Turning a sequence around twice gives it back. */
  lemma ReversedTwice<T>(s: seq<T>)
    ensures Reversed(Reversed(s)) == s
  {
    forall k | 0 <= k < |s|
      ensures Reversed(Reversed(s))[k] == s[k]
    {
      ReversedAt(Reversed(s), k);
      ReversedAt(s, |s| - 1 - k);
    }
  }

  /**
   * `reverse(curve)`: swaps vertex[i] and vertex[n-1-i] from the two ends
   * inwards, so the first n vertices end up in reverse order. Nothing else
   * changes, n included.
   */
  method Reverse(curve: PrivCurve)
    requires curve.vertex != null && 0 <= curve.n <= curve.vertex.Length
    modifies curve.vertex
    ensures curve.vertex[..curve.n] == Reversed(old(curve.vertex[..curve.n]))
    ensures curve.vertex[curve.n..] == old(curve.vertex[curve.n..])
  {
    var v := curve.vertex;
    var m := curve.n;
    ghost var start := v[..];
    var i, j := 0, m - 1;
    while i < j
      invariant 0 <= i && j == m - 1 - i && i <= m - i
      invariant v.Length == |start| && SwappedUpTo(start, v[..], m, i)
    {
      ghost var before := v[..];
      var tmp := v[i];
      v[i] := v[j];
      v[j] := tmp;
      SwapStep(start, before, m, i);
      assert v[..] == before[i := before[j]][j := before[i]];
      i, j := i + 1, j - 1;
    }
    forall k | 0 <= k < m
      ensures v[..m][k] == Reversed(start[..m])[k]
    {
      ReversedAt(start[..m], k);
    }
  }

  /**
   * The invariant of Reverse: the first i and the last i of the first m
   * entries have been swapped, and every other entry is where it was.
   */
  ghost predicate SwappedUpTo<T>(start: seq<T>, v: seq<T>, m: int, i: int)
    requires |v| == |start| && 0 <= m <= |v| && 0 <= i <= m - i
  {
    && (forall k :: 0 <= k < i ==> v[k] == start[m - 1 - k] && v[m - 1 - k] == start[k])
    && (forall k :: i <= k < m - i ==> v[k] == start[k])
    && (forall k :: m <= k < |v| ==> v[k] == start[k])
  }

  /** Swapping the next pair from the ends extends the invariant by one. */
  lemma SwapStep<T>(start: seq<T>, v: seq<T>, m: int, i: int)
    requires |v| == |start| && 0 <= m <= |v| && 0 <= i < m - 1 - i
    requires SwappedUpTo(start, v, m, i)
    ensures SwappedUpTo(start, v[i := v[m - 1 - i]][m - 1 - i := v[i]], m, i + 1)
  {
  }

  /** Reversing a curve twice leaves its vertices as they were. */
  lemma ReverseTwice(v0: seq<DPoint>, v1: seq<DPoint>, v2: seq<DPoint>, n: int)
    requires 0 <= n <= |v0| == |v1| == |v2|
    requires v1[..n] == Reversed(v0[..n]) && v1[n..] == v0[n..]
    requires v2[..n] == Reversed(v1[..n]) && v2[n..] == v1[n..]
    ensures v2 == v0
  {
    ReversedTwice(v0[..n]);
    assert v2 == v2[..n] + v2[n..] && v0 == v0[..n] + v0[n..];
  }

  /* ---------------------------------------------------------------------- */
  /* the result of opti_penalty */

  /** The contents of an `opti_s`: penalty, the two inner control points, t, s and alpha. */
  datatype Opti = Opti(pen: real, c0: DPoint, c1: DPoint, t: real, s: real, alpha: real)

  /** A fresh `opti_s`: its fields keep their default zeros. */
  const NoOpti: Opti := Opti(0.0, Origin, Origin, 0.0, 0.0, 0.0)

  /**
   * What a call `opti_penalty(pp, i, j, res, ...)` does: `ok` is its
   * return value 0, `wrote` whether it got as far as writing into the
   * object res (always, when it succeeds), and `res` what it leaves there
   * then: its result, or the part a later failure leaves. A call that
   * fails before its writes leaves the object as it was.
   */
  datatype Fit = Fit(ok: bool, wrote: bool, res: Opti)

  /** The object's contents after the call f, from o. */
  function After(f: Fit, o: Opti): (r: Opti)
    ensures f.ok ==> r == f.res
    ensures !f.ok && !f.wrote ==> r == o
  {
    if f.ok || f.wrote then f.res else o
  }

  /** `opti_s`: the object opti_penalty writes its result into. */
  class OptiS {
    var pen: real
    var c0: DPoint
    var c1: DPoint
    var t: real
    var s: real
    var alpha: real

    /** `new opti_t()`. */
    constructor ()
      ensures Value() == NoOpti
    {
      pen, c0, c1, t, s, alpha := 0.0, Origin, Origin, 0.0, 0.0, 0.0;
    }

    function Value(): Opti
      reads this
    {
      Opti(pen, c0, c1, t, s, alpha)
    }

    /** The writes of one opti_penalty call into this object. */
    method Store(v: Opti)
      modifies this
      ensures Value() == v
    {
      pen, c0, c1, t, s, alpha := v.pen, v.c0, v.c1, v.t, v.s, v.alpha;
    }
  }

  /* ---------------------------------------------------------------------- */
  /* the dynamic program, as functions */

  /**
   * One column of the tables pt, pen, len and opt: how j is best reached,
   * the total penalty and the number of segments on the way, and the
   * parameters of the last segment when it is a joined one.
   */
  datatype Entry = Entry(pt: int, pen: real, len: int, par: Opti)

  /** The entry for 0: no segments and no penalty. */
  const Start: Entry := Entry(-1, 0.0, 0, NoOpti)

  /** The entry every column j starts from: reach j - 1 as best as possible and add segment j unchanged. */
  function Default(tbl: seq<Entry>, j: int): (e: Entry)
    requires 1 <= j <= |tbl|
    ensures e.pt == j - 1 && e.len == tbl[j - 1].len + 1 && e.pen == tbl[j - 1].pen + e.par.pen
  {
    Entry(j - 1, tbl[j - 1].pen, tbl[j - 1].len + 1, NoOpti)
  }

  /** The candidate that joins the segments after i up to j into one, with the parameters p. */
  function Joined(tbl: seq<Entry>, i: int, p: Opti): (e: Entry)
    requires 0 <= i < |tbl|
    ensures e.pt == i && e.len == tbl[i].len + 1 && e.pen == tbl[i].pen + e.par.pen
  {
    Entry(i, tbl[i].pen + p.pen, tbl[i].len + 1, p)
  }

  /** Candidate c is better than e: fewer segments, or as many and a smaller penalty. */
  predicate Better(c: Entry, e: Entry)
  {
    e.len > c.len || (e.len == c.len && e.pen > c.pen)
  }

  /**
   * The inner loop `for (i=j-2; i>=0; i--)` from i down, with e the best
   * so far and o the object's contents: each call leaves in o what it
   * wrote (nothing when it fails before writing), a failing call ends
   * the scan, and a joined candidate replaces e when it is
   * better. Yields the final e and o.
   */
  function Scan(fit: (int, int) -> Fit, tbl: seq<Entry>, jm: int, i: int, e: Entry, o: Opti): (r: (Entry, Opti))
    requires -1 <= i < |tbl|
    ensures i < 0 ==> r == (e, o)
    decreases i + 1
  {
    if i < 0 then (e, o)
    else
      var f := fit(i, jm);
      if !f.ok then (e, After(f, o))
      else
        var c := Joined(tbl, i, f.res);
        Scan(fit, tbl, jm, i - 1, if Better(c, e) then c else e, f.res)
  }

  /**
   * The columns 0..j of the tables, and what the object o holds after
   * them, from o0 at the start. Column j scans i = j-2 down to 0 with
   * `opti_penalty(pp, i, mod(j,m), ...)`.
   */
  function Columns(fit: (int, int) -> Fit, m: nat, j: nat, o0: Opti): (r: (seq<Entry>, Opti))
    requires j <= m
    ensures |r.0| == j + 1 && r.0[0] == Start
    decreases j
  {
    if j == 0 then ([Start], o0)
    else
      var prior := Columns(fit, m, j - 1, o0);
      var col := Scan(fit, prior.0, Mod(j, m), j - 2, Default(prior.0, j), prior.1);
      (prior.0 + [col.0], col.1)
  }

  /* ---------------------------------------------------------------------- */
  /* what the tables hold */

  /**
   * Every column j >= 1 is reached from an earlier column pt[j] by one
   * more segment, at the penalty of pt[j] plus that segment's; only
   * joined segments carry parameters and a penalty.
   */
  ghost predicate Linked(tbl: seq<Entry>)
  {
    && |tbl| >= 1 && tbl[0] == Start
    && forall k {:trigger tbl[k].pt} :: 1 <= k < |tbl| ==>
         && 0 <= tbl[k].pt < k && tbl[k].len == tbl[tbl[k].pt].len + 1 && 1 <= tbl[k].len
         && tbl[k].pen == tbl[tbl[k].pt].pen + tbl[k].par.pen
         && (tbl[k].pt == k - 1 ==> tbl[k].par == NoOpti)
  }

  /** The scan ends with its starting entry or with a joined candidate that passed. */
  lemma {:induction false} ScanPicks(fit: (int, int) -> Fit, tbl: seq<Entry>, jm: int, i: int, e: Entry, o: Opti)
    requires -1 <= i < |tbl|
    ensures var r := Scan(fit, tbl, jm, i, e, o).0;
      r == e || (0 <= r.pt <= i && fit(r.pt, jm).ok && r == Joined(tbl, r.pt, fit(r.pt, jm).res))
    decreases i + 1
  {
    if 0 <= i && fit(i, jm).ok {
      var c := Joined(tbl, i, fit(i, jm).res);
      ScanPicks(fit, tbl, jm, i - 1, if Better(c, e) then c else e, fit(i, jm).res);
    }
  }

  /** The tables are linked, column by column. */
  lemma {:induction false} ColumnsLinked(fit: (int, int) -> Fit, m: nat, j: nat, o0: Opti)
    requires j <= m
    ensures Linked(Columns(fit, m, j, o0).0)
  {
    if j > 0 {
      ColumnsLinked(fit, m, j - 1, o0);
      var prior := Columns(fit, m, j - 1, o0);
      ScanPicks(fit, prior.0, Mod(j, m), j - 2, Default(prior.0, j), prior.1);
      LinkedSnoc(prior.0, Scan(fit, prior.0, Mod(j, m), j - 2, Default(prior.0, j), prior.1).0);
    }
  }

  /** A column reached from an earlier one by one more segment extends linked tables. */
  lemma LinkedSnoc(tbl: seq<Entry>, e: Entry)
    requires Linked(tbl) && 0 <= e.pt < |tbl|
    requires e.len == tbl[e.pt].len + 1 && e.pen == tbl[e.pt].pen + e.par.pen
    requires e.pt == |tbl| - 1 ==> e.par == NoOpti
    ensures Linked(tbl + [e])
  {
    var t := tbl + [e];
    assert t[e.pt] == tbl[e.pt];
    forall k | 1 <= k < |t|
      ensures 0 <= t[k].pt < k && t[k].len == t[t[k].pt].len + 1 && 1 <= t[k].len
      ensures t[k].pen == t[t[k].pt].pen + t[k].par.pen && (t[k].pt == k - 1 ==> t[k].par == NoOpti)
    {
      if k < |tbl| {
        assert t[k] == tbl[k] && t[tbl[k].pt] == tbl[tbl[k].pt];
      }
    }
  }

  /** Column j needs at most j segments. So the optimised curve has at most as many segments as the original. */
  lemma {:induction false} FewerSegments(fit: (int, int) -> Fit, m: nat, j: nat, o0: Opti)
    requires j <= m
    ensures forall k :: 0 <= k <= j ==> 0 <= Columns(fit, m, j, o0).0[k].len <= k
  {
    if j > 0 {
      FewerSegments(fit, m, j - 1, o0);
      ColumnsLinked(fit, m, j, o0);
      var tbl := Columns(fit, m, j, o0).0;
      assert tbl[..j] == Columns(fit, m, j - 1, o0).0;
      assert tbl[j].len == tbl[tbl[j].pt].len + 1;
    }
  }

  /** No worse than c: c is not better. */
  predicate NoWorse(e: Entry, c: Entry)
  {
    !Better(c, e)
  }

  /** Every call of the scan from i' up to hi succeeds. */
  ghost predicate Passes(fit: (int, int) -> Fit, jm: int, lo: int, hi: int)
  {
    forall i' :: lo <= i' <= hi ==> fit(i', jm).ok
  }

  /**
   * The scan's result is no worse than its starting entry, nor than any
   * candidate it reached: those from i down to the first failing call.
   */
  lemma {:induction false} ScanBest(fit: (int, int) -> Fit, tbl: seq<Entry>, jm: int, i: int, e: Entry, o: Opti, lo: int)
    requires -1 <= i < |tbl| && 0 <= lo
    requires Passes(fit, jm, lo, i)
    ensures var r := Scan(fit, tbl, jm, i, e, o).0;
      && NoWorse(r, e)
      && forall i' :: lo <= i' <= i ==> NoWorse(r, Joined(tbl, i', fit(i', jm).res))
    decreases i + 1
  {
    if 0 <= i {
      var c := Joined(tbl, i, fit(i, jm).res);
      var e' := if Better(c, e) then c else e;
      ScanBest(fit, tbl, jm, i - 1, e', fit(i, jm).res, lo);
    }
  }

  /**
   * Column j is optimal among the ways the scan tried: no worse than
   * adding segment j to column j - 1, nor than joining the segments after
   * any i, down to where opti_penalty first failed, into one.
   */
  lemma ColumnBest(fit: (int, int) -> Fit, m: nat, j: nat, o0: Opti, lo: int)
    requires 1 <= j <= m && 0 <= lo && Passes(fit, Mod(j, m), lo, j - 2)
    ensures var tbl := Columns(fit, m, j, o0).0;
      && NoWorse(tbl[j], Default(tbl, j))
      && forall i :: lo <= i <= j - 2 ==> NoWorse(tbl[j], Joined(tbl, i, fit(i, Mod(j, m)).res))
  {
    var prior := Columns(fit, m, j - 1, o0);
    var tbl := Columns(fit, m, j, o0).0;
    assert tbl[..j] == prior.0;
    ScanBest(fit, prior.0, Mod(j, m), j - 2, Default(prior.0, j), prior.1, lo);
    assert Default(tbl, j) == Default(prior.0, j);
    forall i | lo <= i <= j - 2
      ensures Joined(tbl, i, fit(i, Mod(j, m)).res) == Joined(prior.0, i, fit(i, Mod(j, m)).res)
    {
    }
  }

  /** Later columns do not change earlier ones. */
  lemma {:induction false} ColumnsPrefix(fit: (int, int) -> Fit, m: nat, j: nat, k: nat, o0: Opti)
    requires k <= j <= m
    ensures Columns(fit, m, j, o0).0[..k + 1] == Columns(fit, m, k, o0).0
    decreases j - k
  {
    if k < j {
      ColumnsPrefix(fit, m, j - 1, k, o0);
      assert Columns(fit, m, j, o0).0[..j] == Columns(fit, m, j - 1, o0).0;
      assert Columns(fit, m, j, o0).0[..k + 1] == Columns(fit, m, j, o0).0[..j][..k + 1];
    }
  }

  /* ---------------------------------------------------------------------- */
  /* the dynamic program, as the source runs it */

  /** The arrays pt, pen, len and opt hold the entries tbl in their first n places. */
  ghost predicate Holds(pt: seq<int>, pen: seq<real>, len: seq<int>, opt: seq<Opti>, tbl: seq<Entry>, n: int)
    requires 0 <= n <= |tbl| && n <= |pt| && n <= |pen| && n <= |len| && n <= |opt|
  {
    forall k :: 0 <= k < n ==> Entry(pt[k], pen[k], len[k], opt[k]) == tbl[k]
  }

  /** The parallel arrays pt, pen and len hold the first n entries of tbl, leaving out the parameters. */
  ghost predicate HoldsBare(pt: seq<int>, pen: seq<real>, len: seq<int>, tbl: seq<Entry>, n: int)
    requires 0 <= n <= |tbl| && n <= |pt| && n <= |pen| && n <= |len|
  {
    forall k :: 0 <= k < n ==> pt[k] == tbl[k].pt && pen[k] == tbl[k].pen && len[k] == tbl[k].len
  }

  /**
   * The inner loop for column j, from the default entry in pt[j], pen[j]
   * and len[j]: as Scan, with `best` the contents of o at the last
   * improvement (the parameters a copy of o would keep).
   */
  method ScanColumn(fit: (int, int) -> Fit, m: nat, j: nat, o: OptiS,
                    pt: array<int>, pen: array<real>, len: array<int>, ghost tbl: seq<Entry>)
    returns (best: Opti)
    requires 1 <= j <= m && pt.Length == pen.Length == len.Length == m + 1 && pt != len
    requires |tbl| == j && HoldsBare(pt[..], pen[..], len[..], tbl, j)
    requires Entry(pt[j], pen[j], len[j], NoOpti) == Default(tbl, j)
    modifies pt, pen, len, o
    ensures Entry(pt[j], pen[j], len[j], best) == Scan(fit, tbl, Mod(j, m), j - 2, Default(tbl, j), old(o.Value())).0
    ensures o.Value() == Scan(fit, tbl, Mod(j, m), j - 2, Default(tbl, j), old(o.Value())).1
    ensures forall k :: 0 <= k <= m && k != j ==> pt[k] == old(pt[k]) && pen[k] == old(pen[k]) && len[k] == old(len[k])
  {
    var jm := Mod(j, m);
    ghost var goal := Scan(fit, tbl, jm, j - 2, Default(tbl, j), o.Value());
    best := NoOpti;
    var i := j - 2;
    while i >= 0
      invariant -1 <= i <= j - 2
      invariant Scan(fit, tbl, jm, i, Entry(pt[j], pen[j], len[j], best), o.Value()) == goal
      invariant forall k :: 0 <= k <= m && k != j ==> pt[k] == old(pt[k]) && pen[k] == old(pen[k]) && len[k] == old(len[k])
    {
      // r = opti_penalty(pp, i, mod(j,m), o, ...)
      var f := fit(i, jm);
      if f.ok || f.wrote {
        o.Store(f.res);
      }
      if !f.ok {
        break;
      }
      if len[j] > len[i] + 1 || (len[j] == len[i] + 1 && pen[j] > pen[i] + o.pen) {
        pt[j] := i;
        pen[j] := pen[i] + o.pen;
        len[j] := len[i] + 1;
        best := o.Value();
      }
      i := i - 1;
    }
  }

  /**
   * The tables of opticurve as intended: `opt[j]` keeps a copy of the
   * parameters of the segment that last improved column j, as the C
   * original's struct assignment does. The tables are Columns(fit, m, m)
   * and o ends as Columns leaves it.
   */
  method OptiTables(fit: (int, int) -> Fit, m: nat, o: OptiS)
    returns (pt: array<int>, pen: array<real>, len: array<int>, opt: array<Opti>)
    modifies o
    ensures fresh(pt) && fresh(pen) && fresh(len) && fresh(opt)
    ensures pt.Length == pen.Length == len.Length == opt.Length == m + 1
    ensures Holds(pt[..], pen[..], len[..], opt[..], Columns(fit, m, m, old(o.Value())).0, m + 1)
    ensures o.Value() == Columns(fit, m, m, old(o.Value())).1
  {
    ghost var o0 := o.Value();
    pt, pen, len, opt := NewTables(m);
    assert Columns(fit, m, 0, o0).0 == [Start];
    var j := 1;
    while j <= m
      invariant 1 <= j <= m + 1 && o0 == old(o.Value())
      invariant Holds(pt[..], pen[..], len[..], opt[..], Columns(fit, m, j - 1, o0).0, j)
      invariant o.Value() == Columns(fit, m, j - 1, o0).1
      invariant forall k :: j <= k <= m ==> opt[k] == NoOpti
    {
      ghost var prior := Columns(fit, m, j - 1, o0);
      Column(fit, m, j, o, pt, pen, len, opt, prior.0);
      ColumnsStep(fit, m, j, o0);
      j := j + 1;
    }
  }

  /** The allocations of the tables, with column 0 set to the start: pt[0] = -1, pen[0] = 0, len[0] = 0. */
  method NewTables(m: nat) returns (pt: array<int>, pen: array<real>, len: array<int>, opt: array<Opti>)
    ensures fresh(pt) && fresh(pen) && fresh(len) && fresh(opt)
    ensures pt.Length == pen.Length == len.Length == opt.Length == m + 1
    ensures Holds(pt[..], pen[..], len[..], opt[..], [Start], 1)
    ensures forall k :: 1 <= k <= m ==> opt[k] == NoOpti
  {
    pt := new int[m + 1](_ => 0);
    pen := new real[m + 1](_ => 0.0);
    len := new int[m + 1](_ => 0);
    opt := new Opti[m + 1](_ => NoOpti);
    pt[0], pen[0], len[0] := -1, 0.0, 0;
  }

  /** One pass of the outer loop of OptiTables: column j. */
  method Column(fit: (int, int) -> Fit, m: nat, j: nat, o: OptiS,
                pt: array<int>, pen: array<real>, len: array<int>, opt: array<Opti>, ghost tbl: seq<Entry>)
    requires 1 <= j <= m && pt.Length == pen.Length == len.Length == opt.Length == m + 1 && pt != len
    requires |tbl| == j && Holds(pt[..], pen[..], len[..], opt[..], tbl, j) && opt[j] == NoOpti
    modifies pt, pen, len, opt, o
    ensures Holds(pt[..], pen[..], len[..], opt[..], tbl + [Scan(fit, tbl, Mod(j, m), j - 2, Default(tbl, j), old(o.Value())).0], j + 1)
    ensures o.Value() == Scan(fit, tbl, Mod(j, m), j - 2, Default(tbl, j), old(o.Value())).1
    ensures forall k :: j < k <= m ==> opt[k] == old(opt[k])
  {
    ghost var o1 := o.Value();
    pt[j], pen[j], len[j] := j - 1, pen[j - 1], len[j - 1] + 1;
    var best := ScanColumn(fit, m, j, o, pt, pen, len, tbl);
    ScanPicks(fit, tbl, Mod(j, m), j - 2, Default(tbl, j), o1);
    if pt[j] != j - 1 {
      opt[j] := best;
    }
  }

  /** Columns grows by one scanned column at a time. */
  lemma ColumnsStep(fit: (int, int) -> Fit, m: nat, j: nat, o0: Opti)
    requires 1 <= j <= m
    ensures var prior := Columns(fit, m, j - 1, o0);
      var col := Scan(fit, prior.0, Mod(j, m), j - 2, Default(prior.0, j), prior.1);
      Columns(fit, m, j, o0) == (prior.0 + [col.0], col.1)
  {
  }

  /**
   * The tables as the source writes them: `opt[j] = o` stores a reference
   * to the one object o, not a copy, so every joined column refers to o,
   * which each later opti_penalty call that reaches its writes overwrites.
   */
  method OptiTablesAsWritten(fit: (int, int) -> Fit, m: nat, o: OptiS)
    returns (pt: array<int>, pen: array<real>, len: array<int>, opt: array<OptiS?>)
    modifies o
    ensures fresh(pt) && fresh(pen) && fresh(len) && fresh(opt)
    ensures pt.Length == pen.Length == len.Length == opt.Length == m + 1
    ensures HoldsBare(pt[..], pen[..], len[..], Columns(fit, m, m, old(o.Value())).0, m + 1)
    ensures forall k :: 0 <= k <= m ==> opt[k] == if pt[k] != k - 1 then o else null
    ensures o.Value() == Columns(fit, m, m, old(o.Value())).1
  {
    ghost var o0 := o.Value();
    pt, pen, len, opt := NewTablesAsWritten(m);
    assert Columns(fit, m, 0, o0).0 == [Start];
    var j := 1;
    while j <= m
      invariant 1 <= j <= m + 1 && o0 == old(o.Value())
      invariant HoldsBare(pt[..], pen[..], len[..], Columns(fit, m, j - 1, o0).0, j)
      invariant forall k :: 0 <= k < j ==> opt[k] == if pt[k] != k - 1 then o else null
      invariant o.Value() == Columns(fit, m, j - 1, o0).1
      invariant forall k :: j <= k <= m ==> opt[k] == null
    {
      ghost var prior := Columns(fit, m, j - 1, o0);
      ColumnAsWritten(fit, m, j, o, pt, pen, len, opt, prior.0);
      ColumnsStep(fit, m, j, o0);
      j := j + 1;
    }
  }

  /** NewTables, with opt an array of null references. */
  method NewTablesAsWritten(m: nat) returns (pt: array<int>, pen: array<real>, len: array<int>, opt: array<OptiS?>)
    ensures fresh(pt) && fresh(pen) && fresh(len) && fresh(opt)
    ensures pt.Length == pen.Length == len.Length == opt.Length == m + 1
    ensures HoldsBare(pt[..], pen[..], len[..], [Start], 1)
    ensures forall k :: 0 <= k <= m ==> opt[k] == null
  {
    pt := new int[m + 1](_ => 0);
    pen := new real[m + 1](_ => 0.0);
    len := new int[m + 1](_ => 0);
    opt := new OptiS?[m + 1](_ => null);
    pt[0], pen[0], len[0] := -1, 0.0, 0;
  }

  /** One pass of the outer loop of OptiTablesAsWritten: column j. */
  method ColumnAsWritten(fit: (int, int) -> Fit, m: nat, j: nat, o: OptiS,
                         pt: array<int>, pen: array<real>, len: array<int>, opt: array<OptiS?>, ghost tbl: seq<Entry>)
    requires 1 <= j <= m && pt.Length == pen.Length == len.Length == opt.Length == m + 1 && pt != len
    requires |tbl| == j && HoldsBare(pt[..], pen[..], len[..], tbl, j) && opt[j] == null
    requires forall k :: 0 <= k < j ==> opt[k] == if pt[k] != k - 1 then o else null
    modifies pt, pen, len, opt, o
    ensures HoldsBare(pt[..], pen[..], len[..], tbl + [Scan(fit, tbl, Mod(j, m), j - 2, Default(tbl, j), old(o.Value())).0], j + 1)
    ensures forall k :: 0 <= k <= j ==> opt[k] == if pt[k] != k - 1 then o else null
    ensures o.Value() == Scan(fit, tbl, Mod(j, m), j - 2, Default(tbl, j), old(o.Value())).1
    ensures forall k :: j < k <= m ==> opt[k] == old(opt[k])
  {
    pt[j], pen[j], len[j] := j - 1, pen[j - 1], len[j - 1] + 1;
    var best := ScanColumn(fit, m, j, o, pt, pen, len, tbl);
    if pt[j] != j - 1 {
      opt[j] := o;
    }
  }

  /* ---------------------------------------------------------------------- */
  /* reading off the optimised curve */

  /** One segment of a curve: tag, control points, vertex, alpha, alpha0 and beta. */
  datatype Seg = Seg(tag: int, c: Triple, vertex: DPoint, alpha: real, alpha0: real, beta: real)

  /** `interval(lambda, a, b)`: the point a fraction lambda of the way from a to b. */
  function Interval(lambda: real, a: DPoint, b: DPoint): (r: DPoint)
    ensures lambda == 0.0 ==> r == a
    ensures lambda == 1.0 ==> r == b
  {
    DPoint(a.x + lambda * (b.x - a.x), a.y + lambda * (b.y - a.y))
  }

  /** Segment k of a sized curve. */
  ghost function SegAt(cv: PrivCurve, k: int): Seg
    requires cv.Sized() && 0 <= k < cv.n
    reads cv`n, cv`tag, cv`c, cv`vertex, cv`alpha, cv`alpha0, cv`beta, cv.tag, cv.c, cv.vertex, cv.alpha, cv.alpha0, cv.beta
  {
    Seg(cv.tag[k], cv.c[k], cv.vertex[k], cv.alpha[k], cv.alpha0[k], cv.beta[k])
  }

  /**
   * The output segment for input segment `input`, ending a run that is
   * `joined` into one segment with parameters p, or copied through
   * unchanged. A joined segment keeps the end point of the input's third
   * control point, puts its vertex a fraction p.s of the way from there
   * to the input's vertex, and its beta keeps the fresh curve's zero.
   */
  function Out(input: Seg, joined: bool, p: Opti): (r: Seg)
    ensures !joined ==> r == input
    ensures joined ==> r.tag == CurveTo && r.c[2] == input.c[2] && r.alpha == r.alpha0 == p.alpha
  {
    if !joined then input
    else Seg(CurveTo, [p.c0, p.c1, input.c[2]], Interval(p.s, input.c[2], input.vertex), p.alpha, p.alpha, 0.0)
  }

  /** The column reached from m after s steps back along pt. */
  ghost function Walk(tbl: seq<Entry>, s: nat): (j: int)
    requires Linked(tbl) && s <= tbl[|tbl| - 1].len
    ensures 0 <= j < |tbl| && tbl[j].len == tbl[|tbl| - 1].len - s
    ensures s < tbl[|tbl| - 1].len ==> 1 <= j
  {
    if s == 0 then |tbl| - 1 else tbl[Walk(tbl, s - 1)].pt
  }

  /** The walk back along pt takes exactly len[m] steps to get from m to 0, each to an earlier column. */
  lemma WalkEnds(tbl: seq<Entry>, s: nat)
    requires Linked(tbl) && s <= tbl[|tbl| - 1].len
    ensures s == tbl[|tbl| - 1].len ==> Walk(tbl, s) == 0
    ensures 1 <= s ==> Walk(tbl, s) < Walk(tbl, s - 1)
  {
  }

  /**
   * Output segment i of the optimised curve, given the input segments,
   * the tables and the parameters each joined column j is read with: it
   * ends at the column om - 1 - i steps back from m.
   */
  ghost function OutAt(input: seq<Seg>, tbl: seq<Entry>, par: seq<Opti>, i: int): Seg
    requires Linked(tbl) && |input| == |tbl| - 1 && |par| == |tbl|
    requires 0 <= i < tbl[|tbl| - 1].len
  {
    var om := tbl[|tbl| - 1].len;
    var j := Walk(tbl, om - 1 - i);
    Out(input[Mod(j, |input|)], tbl[j].pt != j - 1, par[j])
  }

  /** The segments of a sized curve. */
  function Segs(cv: PrivCurve): (r: seq<Seg>)
    requires cv.Sized()
    reads cv`n, cv`tag, cv`c, cv`vertex, cv`alpha, cv`alpha0, cv`beta, cv.tag, cv.c, cv.vertex, cv.alpha, cv.alpha0, cv.beta
    ensures |r| == cv.n && forall k :: 0 <= k < cv.n ==> r[k] == SegAt(cv, k)
  {
    var n, tag, c, vertex, alpha, alpha0, beta := cv.n, cv.tag[..], cv.c[..], cv.vertex[..], cv.alpha[..], cv.alpha0[..], cv.beta[..];
    seq(n, k requires 0 <= k < n => Seg(tag[k], c[k], vertex[k], alpha[k], alpha0[k], beta[k]))
  }

  /** Output segment i of the intended optimised curve: every joined column is read with its own parameters. */
  ghost function Optimised(input: seq<Seg>, tbl: seq<Entry>, i: int): Seg
    requires Linked(tbl) && |input| == |tbl| - 1
    requires 0 <= i < tbl[|tbl| - 1].len
  {
    OutAt(input, tbl, OwnParameters(tbl), i)
  }

  /** The parameters each column keeps in the intended tables: its own. */
  ghost function OwnParameters(tbl: seq<Entry>): (r: seq<Opti>)
    ensures |r| == |tbl| && forall k :: 0 <= k < |tbl| ==> r[k] == tbl[k].par
  {
    seq(|tbl|, k requires 0 <= k < |tbl| => tbl[k].par)
  }

  /** Output segment i, from the input segment `input`, and the s and t it records. */
  method PutSegment(ocurve: PrivCurve, s: array<real>, t: array<real>, i: int, input: Seg, joined: bool, p: Opti)
    requires ocurve.Sized() && 0 <= i < ocurve.n == s.Length == t.Length
    requires ocurve.alpha != ocurve.alpha0 && ocurve.alpha != ocurve.beta && ocurve.alpha0 != ocurve.beta && s != t
    requires {ocurve.alpha, ocurve.alpha0, ocurve.beta} !! {s, t}
    requires ocurve.beta[i] == 0.0
    modifies ocurve.tag, ocurve.c, ocurve.vertex, ocurve.alpha, ocurve.alpha0, ocurve.beta, s, t
    ensures var w := Out(input, joined, p);
      && ocurve.tag[..] == old(ocurve.tag[..])[i := w.tag] && ocurve.c[..] == old(ocurve.c[..])[i := w.c]
      && ocurve.vertex[..] == old(ocurve.vertex[..])[i := w.vertex]
      && ocurve.alpha[..] == old(ocurve.alpha[..])[i := w.alpha] && ocurve.alpha0[..] == old(ocurve.alpha0[..])[i := w.alpha0]
      && ocurve.beta[..] == old(ocurve.beta[..])[i := w.beta]
    ensures s[..] == old(s[..])[i := if joined then p.s else 1.0]
    ensures t[..] == old(t[..])[i := if joined then p.t else 1.0]
  {
    if !joined {
      ocurve.tag[i] := input.tag;
      ocurve.c[i] := input.c;
      ocurve.vertex[i] := input.vertex;
      ocurve.alpha[i] := input.alpha;
      ocurve.alpha0[i] := input.alpha0;
      ocurve.beta[i] := input.beta;
      s[i], t[i] := 1.0, 1.0;
    } else {
      ocurve.tag[i] := CurveTo;
      ocurve.c[i] := [p.c0, p.c1, input.c[2]];
      ocurve.vertex[i] := Interval(p.s, input.c[2], input.vertex);
      ocurve.alpha[i] := p.alpha;
      ocurve.alpha0[i] := p.alpha;
      s[i], t[i] := p.s, p.t;
    }
  }

  /** The output segments the read-off writes, in order. */
  ghost function Wanted(input: seq<Seg>, tbl: seq<Entry>, par: seq<Opti>): (r: seq<Seg>)
    requires Linked(tbl) && |input| == |tbl| - 1 && |par| == |tbl|
    ensures |r| == tbl[|tbl| - 1].len
    ensures forall i :: 0 <= i < |r| ==> r[i] == OutAt(input, tbl, par, i)
  {
    seq(tbl[|tbl| - 1].len, i requires 0 <= i < tbl[|tbl| - 1].len => OutAt(input, tbl, par, i))
  }

  /**
   * The invariant of the read-off, on the contents of the output arrays:
   * segments i+1 onwards are written as wanted, and segments 0..i still
   * have the fresh curve's zero beta.
   */
  ghost predicate Emitted(tag: seq<int>, c: seq<Triple>, vertex: seq<DPoint>, alpha: seq<real>, alpha0: seq<real>, beta: seq<real>,
                          want: seq<Seg>, i: int)
    requires |tag| == |c| == |vertex| == |alpha| == |alpha0| == |beta| == |want| && -1 <= i < |want|
  {
    && (forall k :: i < k < |want| ==> Seg(tag[k], c[k], vertex[k], alpha[k], alpha0[k], beta[k]) == want[k])
    && (forall k :: 0 <= k <= i ==> beta[k] == 0.0)
  }

  /** Writing the wanted segment i extends the invariant by one. */
  lemma EmitStep(tag: seq<int>, c: seq<Triple>, vertex: seq<DPoint>, alpha: seq<real>, alpha0: seq<real>, beta: seq<real>,
                 want: seq<Seg>, i: int)
    requires |tag| == |c| == |vertex| == |alpha| == |alpha0| == |beta| == |want| && 0 <= i < |want|
    requires Emitted(tag, c, vertex, alpha, alpha0, beta, want, i)
    ensures var w := want[i];
      Emitted(tag[i := w.tag], c[i := w.c], vertex[i := w.vertex], alpha[i := w.alpha], alpha0[i := w.alpha0], beta[i := w.beta], want, i - 1)
  {
  }

  /**
   * The read-off loop `for (i=om-1; i>=0; i--)`: walks back from column
   * m along pt and writes output segment i from input segment mod(j, m),
   * copied through where pt[j] == j - 1 and joined with the parameters
   * opt[j] otherwise. Returns the arrays s and t.
   */
  method ReadOffCurve(input: seq<Seg>, ocurve: PrivCurve, pt: array<int>, opt: array<Opti>,
                      ghost tbl: seq<Entry>, ghost par: seq<Opti>)
    returns (s: array<real>, t: array<real>)
    requires ocurve.Sized() && ocurve.alpha != ocurve.alpha0 && ocurve.alpha != ocurve.beta && ocurve.alpha0 != ocurve.beta
    requires Linked(tbl) && |tbl| == |input| + 1 && pt.Length == opt.Length == |input| + 1
    requires pt != ocurve.tag && (forall k :: 0 <= k <= |input| ==> pt[k] == tbl[k].pt) && opt[..] == par
    requires ocurve.n == tbl[|input|].len && forall k :: 0 <= k < ocurve.n ==> ocurve.beta[k] == 0.0
    modifies ocurve.tag, ocurve.c, ocurve.vertex, ocurve.alpha, ocurve.alpha0, ocurve.beta
    ensures fresh(s) && fresh(t)
    ensures forall i :: 0 <= i < ocurve.n ==> SegAt(ocurve, i) == OutAt(input, tbl, par, i)
  {
    ghost var want := Wanted(input, tbl, par);
    var om := ocurve.n;
    s := new real[om](_ => 0.0);
    t := new real[om](_ => 0.0);
    var j := |input|;
    var i := om - 1;
    while i >= 0
      invariant -1 <= i < om && j == Walk(tbl, om - 1 - i)
      invariant Emitted(ocurve.tag[..], ocurve.c[..], ocurve.vertex[..], ocurve.alpha[..], ocurve.alpha0[..], ocurve.beta[..], want, i)
    {
      j := Emit(input, ocurve, s, t, pt, opt, i, j, om - 1 - i, tbl, par, want);
      i := i - 1;
    }
    forall k | 0 <= k < om
      ensures SegAt(ocurve, k) == OutAt(input, tbl, par, k)
    {
      assert SegAt(ocurve, k) == Seg(ocurve.tag[..][k], ocurve.c[..][k], ocurve.vertex[..][k],
                                     ocurve.alpha[..][k], ocurve.alpha0[..][k], ocurve.beta[..][k]);
    }
  }

  /** One pass of the read-off loop: output segment i, from column j; returns pt[j]. */
  method Emit(input: seq<Seg>, ocurve: PrivCurve, s: array<real>, t: array<real>, pt: array<int>, opt: array<Opti>,
              i: int, j: int, ghost step: nat, ghost tbl: seq<Entry>, ghost par: seq<Opti>, ghost want: seq<Seg>)
    returns (j': int)
    requires ocurve.Sized() && ocurve.alpha != ocurve.alpha0 && ocurve.alpha != ocurve.beta && ocurve.alpha0 != ocurve.beta
    requires {ocurve.alpha, ocurve.alpha0, ocurve.beta} !! {s, t} && s != t
    requires Linked(tbl) && |tbl| == |input| + 1 && pt.Length == opt.Length == |input| + 1
    requires pt != ocurve.tag && (forall k :: 0 <= k <= |input| ==> pt[k] == tbl[k].pt) && opt[..] == par
    requires ocurve.n == tbl[|input|].len == s.Length == t.Length
    requires want == Wanted(input, tbl, par)
    requires 0 <= i < ocurve.n && step == ocurve.n - 1 - i && j == Walk(tbl, step)
    requires Emitted(ocurve.tag[..], ocurve.c[..], ocurve.vertex[..], ocurve.alpha[..], ocurve.alpha0[..], ocurve.beta[..], want, i)
    modifies ocurve.tag, ocurve.c, ocurve.vertex, ocurve.alpha, ocurve.alpha0, ocurve.beta, s, t
    ensures j' == Walk(tbl, step + 1)
    ensures Emitted(ocurve.tag[..], ocurve.c[..], ocurve.vertex[..], ocurve.alpha[..], ocurve.alpha0[..], ocurve.beta[..], want, i - 1)
  {
    j' := pt[j];
    var joined := pt[j] != j - 1;
    var seg := input[Mod(j, |input|)];
    assert Out(seg, joined, opt[j]) == want[i] by {
      assert opt[j] == par[j];
    }
    ghost var tag, c, vertex, alpha, alpha0, beta := ocurve.tag[..], ocurve.c[..], ocurve.vertex[..], ocurve.alpha[..], ocurve.alpha0[..], ocurve.beta[..];
    PutSegment(ocurve, s, t, i, seg, joined, opt[j]);
    EmitStep(tag, c, vertex, alpha, alpha0, beta, want, i);
  }

  /**
   * The tables of the intended opticurve, from a fresh opti_s: the
   * predecessors pt, the segment count om = len[m] of the best curve and
   * the parameters opt each column keeps.
   */
  method Plan(fit: (int, int) -> Fit, m: nat) returns (pt: array<int>, om: int, opt: array<Opti>)
    ensures fresh(pt) && fresh(opt) && pt.Length == opt.Length == m + 1
    ensures var tbl := Columns(fit, m, m, NoOpti).0;
      && Linked(tbl) && om == tbl[m].len <= m
      && (forall k :: 0 <= k <= m ==> pt[k] == tbl[k].pt) && opt[..] == OwnParameters(tbl)
  {
    var o := new OptiS();
    var pen, len;
    pt, pen, len, opt := OptiTables(fit, m, o);
    ghost var tbl := Columns(fit, m, m, NoOpti).0;
    ColumnsLinked(fit, m, m, NoOpti);
    FewerSegments(fit, m, m, NoOpti);
    assert forall k :: 0 <= k <= m ==> Entry(pt[k], pen[k], len[k], opt[k]) == tbl[k];
    om := len[m];
  }

  /**
   * The second half of opticurve: a fresh ocurve of om segments, filled
   * in by the read-off, with alphacurve set.
   */
  method Assemble(input: seq<Seg>, ocurve: PrivCurve, pt: array<int>, om: int, opt: array<Opti>, ghost tbl: seq<Entry>)
    requires Linked(tbl) && |tbl| == |input| + 1 && om == tbl[|input|].len
    requires pt.Length == opt.Length == |input| + 1
    requires (forall k :: 0 <= k <= |input| ==> pt[k] == tbl[k].pt) && opt[..] == OwnParameters(tbl)
    modifies ocurve
    ensures ocurve.Sized() && ocurve.n == om && ocurve.alphaCurve == 1
    ensures forall i :: 0 <= i < om ==> SegAt(ocurve, i) == Optimised(input, tbl, i)
  {
    var r := PrivcurveInit(ocurve, om);
    var s, t := ReadOffCurve(input, ocurve, pt, opt, tbl, OwnParameters(tbl));
    ocurve.SetAlphaCurve(1);
  }

  /**
   * `opticurve(pp, opttolerance)` as intended: the tables, then the
   * output curve, each joined segment with its own parameters. Returns 0.
   */
  method Opticurve(pp: PrivPath, fit: (int, int) -> Fit) returns (r: int)
    requires pp.curve.Sized() && pp.curve != pp.ocurve
    modifies pp.ocurve
    ensures r == 0 && pp.ocurve.Sized() && pp.ocurve.alphaCurve == 1
    ensures var tbl := Columns(fit, pp.curve.n, pp.curve.n, NoOpti).0;
      && Linked(tbl) && pp.ocurve.n == tbl[pp.curve.n].len <= pp.curve.n
      && forall i :: 0 <= i < pp.ocurve.n ==> SegAt(pp.ocurve, i) == Optimised(old(Segs(pp.curve)), tbl, i)
  {
    var m := pp.curve.n;
    var input := Segs(pp.curve);
    var pt, om, opt := Plan(fit, m);
    Assemble(input, pp.ocurve, pt, om, opt, Columns(fit, m, m, NoOpti).0);
    r := 0;
  }

  /* ---------------------------------------------------------------------- */
  /* opticurve as written: one shared opti_s */

  /**
   * The parameters the read-off sees in the source's tables: every
   * joined column holds the same object o, so it reads whatever o holds
   * when the read-off runs; copied-through columns hold null and are
   * never read (NoOpti stands in for them).
   */
  ghost function SharedParameters(tbl: seq<Entry>, o: Opti): (r: seq<Opti>)
    ensures |r| == |tbl|
    ensures forall k :: 0 <= k < |tbl| && tbl[k].pt != k - 1 ==> r[k] == o
  {
    seq(|tbl|, k requires 0 <= k < |tbl| => if tbl[k].pt != k - 1 then o else NoOpti)
  }

  /** What the read-off finds behind each entry of opt when it runs. */
  method Deref(opt: array<OptiS?>) returns (seen: array<Opti>)
    ensures fresh(seen) && seen.Length == opt.Length
    ensures forall k :: 0 <= k < opt.Length ==> seen[k] == if opt[k] != null then opt[k].Value() else NoOpti
  {
    seen := new Opti[opt.Length](_ => NoOpti);
    var k := 0;
    while k < opt.Length
      invariant 0 <= k <= opt.Length
      invariant forall q :: 0 <= q < k ==> seen[q] == if opt[q] != null then opt[q].Value() else NoOpti
    {
      seen[k] := if opt[k] != null then opt[k].Value() else NoOpti;
      k := k + 1;
    }
  }

  /**
   * `opticurve` as the source writes it: `opt[j] = o` stores the one
   * object o, so every joined output segment takes the parameters of the
   * last opti_penalty call of the whole dynamic program instead of those
   * of its own column.
   */
  method OpticurveAsWritten(pp: PrivPath, fit: (int, int) -> Fit) returns (r: int)
    requires pp.curve.Sized() && pp.curve != pp.ocurve
    modifies pp.ocurve
    ensures r == 0 && pp.ocurve.Sized() && pp.ocurve.alphaCurve == 1
    ensures var cols := Columns(fit, pp.curve.n, pp.curve.n, NoOpti);
      && Linked(cols.0) && pp.ocurve.n == cols.0[pp.curve.n].len
      && forall i :: 0 <= i < pp.ocurve.n ==>
           SegAt(pp.ocurve, i) == OutAt(old(Segs(pp.curve)), cols.0, SharedParameters(cols.0, cols.1), i)
  {
    var m := pp.curve.n;
    var input := Segs(pp.curve);
    var pt, om, seen := PlanAsWritten(fit, m);
    ghost var cols := Columns(fit, m, m, NoOpti);
    AssembleWith(input, pp.ocurve, pt, om, seen, cols.0, SharedParameters(cols.0, cols.1));
    r := 0;
  }

  /** The source's tables, with what the read-off finds in opt. */
  method PlanAsWritten(fit: (int, int) -> Fit, m: nat) returns (pt: array<int>, om: int, seen: array<Opti>)
    ensures fresh(pt) && fresh(seen) && pt.Length == seen.Length == m + 1
    ensures var cols := Columns(fit, m, m, NoOpti);
      && Linked(cols.0) && om == cols.0[m].len
      && (forall k :: 0 <= k <= m ==> pt[k] == cols.0[k].pt) && seen[..] == SharedParameters(cols.0, cols.1)
  {
    var o := new OptiS();
    var pen, len, opt;
    pt, pen, len, opt := OptiTablesAsWritten(fit, m, o);
    ghost var cols := Columns(fit, m, m, NoOpti);
    ColumnsLinked(fit, m, m, NoOpti);
    seen := Deref(opt);
    assert seen[..] == SharedParameters(cols.0, cols.1) by {
      assert forall k :: 0 <= k <= m ==> seen[k] == SharedParameters(cols.0, cols.1)[k];
    }
    om := len[m];
  }

  /** Assemble, for any parameters the read-off finds in opt. */
  method AssembleWith(input: seq<Seg>, ocurve: PrivCurve, pt: array<int>, om: int, opt: array<Opti>,
                      ghost tbl: seq<Entry>, ghost par: seq<Opti>)
    requires Linked(tbl) && |tbl| == |input| + 1 && om == tbl[|input|].len
    requires pt.Length == opt.Length == |input| + 1
    requires (forall k :: 0 <= k <= |input| ==> pt[k] == tbl[k].pt) && opt[..] == par
    modifies ocurve
    ensures ocurve.Sized() && ocurve.n == om && ocurve.alphaCurve == 1
    ensures forall i :: 0 <= i < om ==> SegAt(ocurve, i) == OutAt(input, tbl, par, i)
  {
    var r := PrivcurveInit(ocurve, om);
    var s, t := ReadOffCurve(input, ocurve, pt, opt, tbl, par);
    ocurve.SetAlphaCurve(1);
  }

  /* ---------------------------------------------------------------------- */
  /* an input on which the two differ */

  /** Parameters of the join from 0 to 2, and of the join from 1 to 3 (`opti_penalty(pp, 1, 0, ...)`, as mod(3, 3) = 0). */
  const JoinA: Opti := Opti(1.0, DPoint(1.0, 0.0), Origin, 0.5, 0.5, 1.0)
  const JoinB: Opti := Opti(2.0, DPoint(2.0, 0.0), Origin, 0.5, 0.5, 0.75)

  /**
   * opti_penalty on a curve of three segments, a stand-in for geometry
   * this model does not compute: the join from 0 to 2 succeeds with
   * JoinA; the join from 1 to 3, the call (1, 0), succeeds with JoinB but
   * costs more than going through 2; the call (0, 0) returns at its
   * `i == j` check without writing, so o keeps JoinB from the call
   * before it.
   */
  function SampleFit(i: int, jm: int): Fit
  {
    if i == 0 && jm == 2 then Fit(true, true, JoinA)
    else if i == 1 && jm == 0 then Fit(true, true, JoinB)
    else Fit(false, false, NoOpti)
  }

  /**
   * Three curved input segments. Their CurveTo tags keep the convexity
   * table from ruling the joins out; SampleFit stands in for what
   * opti_penalty would find on their geometry.
   */
  const SampleCurve: seq<Seg> := seq(3, k => Seg(CurveTo, [Origin, Origin, Origin], Origin, 0.0, 0.0, 0.0))

  /**
   * With SampleFit the best curve has two segments: the join from 0 to 2
   * (with JoinA) and the segment from 2 to 3 copied through. The source's
   * read-off gives the join JoinB's alpha, left in o by the call (1, 0)
   * and not overwritten by the call (0, 0); the intended one gives it
   * JoinA's.
   */
  lemma SharedParametersDiffer()
    ensures var cols := Columns(SampleFit, 3, 3, NoOpti);
      && Linked(cols.0) && cols.0[3].len == 2
      && OutAt(SampleCurve, cols.0, SharedParameters(cols.0, cols.1), 0).alpha == JoinB.alpha
      && Optimised(SampleCurve, cols.0, 0).alpha == JoinA.alpha
  {
    var t0 := [Start];
    assert Columns(SampleFit, 3, 0, NoOpti) == (t0, NoOpti);
    var t1 := t0 + [Entry(0, 0.0, 1, NoOpti)];
    assert Columns(SampleFit, 3, 1, NoOpti) == (t1, NoOpti);
    var t2 := t1 + [Entry(0, 1.0, 1, JoinA)];
    assert Columns(SampleFit, 3, 2, NoOpti) == (t2, JoinA) by {
      assert Mod(2, 3) == 2 by { DivUnique(2, 3, 0, 2); }
      assert Scan(SampleFit, t1, 2, 0, Default(t1, 2), NoOpti) == Scan(SampleFit, t1, 2, -1, Entry(0, 1.0, 1, JoinA), JoinA);
    }
    var t3 := t2 + [Entry(2, 1.0, 2, NoOpti)];
    assert Columns(SampleFit, 3, 3, NoOpti) == (t3, JoinB) by {
      assert Mod(3, 3) == 0 by { DivUnique(3, 3, 1, 0); }
      assert Scan(SampleFit, t2, 0, 1, Default(t2, 3), JoinA) == Scan(SampleFit, t2, 0, 0, Default(t2, 3), JoinB);
    }
    var c3 := Columns(SampleFit, 3, 3, NoOpti);
    ColumnsLinked(SampleFit, 3, 3, NoOpti);
    assert Walk(c3.0, 1) == 2;
  }
}
