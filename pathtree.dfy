/*
 * Giving the path list a tree structure (`pathlist_to_tree` in
 * decompose.c.cs).
 *
 * The paths live in an arena (module Lists): `paths[i]` is the traced path
 * of path object i and `links` holds its `Next`, `ChildList` and `Sibling`
 * references. The procedure works in two phases. The first repeatedly takes
 * a sublist off a heap of sublists, renders the sublist's first path (the
 * head) into a scratch bitmap and splits the rest of the sublist into the
 * paths inside the head and the others; both become new sublists. The
 * second rebuilds a single `Next` list from the tree, each path's
 * descendants after it.
 */
module PathTree {
  import opened Auxiliary
  import opened Bitmap
  import opened BitmapOps
  import opened Erase
  import opened Curve
  import opened Lists
  import opened Walk

  /* ---------------------------------------------------------------------- */
  /* the paths of the arena */

  /** Path p of the arena has a first point, `p.Priv.pt[0]`. */
  predicate Started(paths: seq<TracedPath>, p: int)
  {
    0 <= p < |paths| && |paths[p].pt| > 0
  }

  /** Every path of xs has a first point. */
  predicate AllStarted(paths: seq<TracedPath>, xs: seq<int>)
  {
    forall k :: 0 <= k < |xs| ==> Started(paths, xs[k])
  }

  /** The first point of path p: an upper left corner, as findpath returns it. */
  function Start(paths: seq<TracedPath>, p: int): Point
    requires Started(paths, p)
  {
    paths[p].pt[0]
  }

  /** Every path of the arena has a first point and lies within a w x h bitmap. */
  predicate Arena(paths: seq<TracedPath>, w: int, h: int)
  {
    forall i :: 0 <= i < |paths| ==> Started(paths, i) && InBitmap(paths[i].pt, w, h)
  }

  /**
   * The insideness test: the pixel just below-right of p's first corner,
   * `BM_GET(bm, pt[0].x, pt[0].y - 1)`, is set in the picture of the head.
   */
  predicate Inside(paths: seq<TracedPath>, pic: Picture, p: int)
    requires Started(paths, p)
  {
    pic(Start(paths, p).x, Start(paths, p).y - 1)
  }

  /* ---------------------------------------------------------------------- */
  /* splitting a sublist */

  /** The two lists the split builds: the paths inside the head (`head.ChildList`) and the others (`head.Next`). */
  datatype Parts = Parts(ins: seq<int>, outs: seq<int>)

  /**
   * What the loop over a sublist is meant to do: the paths are taken in
   * order; those inside the head (in the picture `pic` of the head) go to
   * the inner list, the others to the outer list; at the first path whose
   * first point is at or below the bottom y0 of the head's bounding box,
   * that path and all later ones go to the outer list unexamined (the list
   * is ordered top-down, so none of them can be inside the head).
   */
  function Split(paths: seq<TracedPath>, rest: seq<int>, y0: int, pic: Picture): Parts
    requires AllStarted(paths, rest)
    decreases |rest|
  {
    if rest == [] then Parts([], [])
    else if Start(paths, rest[0]).y <= y0 then Parts([], rest)
    else
      var r := Split(paths, rest[1..], y0, pic);
      if Inside(paths, pic, rest[0]) then Parts([rest[0]] + r.ins, r.outs)
      else Parts(r.ins, [rest[0]] + r.outs)
  }

  /**
   * The split as the C# port performs it: at the cut the path is appended
   * to the outer list, but the remainder of the sublist is never attached
   * behind it, so it belongs to neither list.
   */
  function SplitAsWritten(paths: seq<TracedPath>, rest: seq<int>, y0: int, pic: Picture): Parts
    requires AllStarted(paths, rest)
    decreases |rest|
  {
    if rest == [] then Parts([], [])
    else if Start(paths, rest[0]).y <= y0 then Parts([], [rest[0]])
    else
      var r := SplitAsWritten(paths, rest[1..], y0, pic);
      if Inside(paths, pic, rest[0]) then Parts([rest[0]] + r.ins, r.outs)
      else Parts(r.ins, [rest[0]] + r.outs)
  }

  /** The position of the first path of rest that starts at or below y0, or |rest| if none does. */
  function Cut(paths: seq<TracedPath>, rest: seq<int>, y0: int): (c: nat)
    requires AllStarted(paths, rest)
    ensures c <= |rest|
    ensures forall k :: 0 <= k < c ==> Start(paths, rest[k]).y > y0
    ensures c < |rest| ==> Start(paths, rest[c]).y <= y0
    decreases |rest|
  {
    if rest == [] || Start(paths, rest[0]).y <= y0 then 0
    else 1 + Cut(paths, rest[1..], y0)
  }

  /** The paths of xs whose insideness test gives `inside`, in their order: a reference definition for the split. */
  function Keep(paths: seq<TracedPath>, xs: seq<int>, pic: Picture, inside: bool): seq<int>
    requires AllStarted(paths, xs)
    decreases |xs|
  {
    if xs == [] then []
    else if Inside(paths, pic, xs[0]) == inside then [xs[0]] + Keep(paths, xs[1..], pic, inside)
    else Keep(paths, xs[1..], pic, inside)
  }

  /** Keep selects exactly the paths of xs with the given test result, and each as often as xs holds it. */
  lemma {:induction false} KeepCounts(paths: seq<TracedPath>, xs: seq<int>, pic: Picture)
    requires AllStarted(paths, xs)
    ensures multiset(Keep(paths, xs, pic, true)) + multiset(Keep(paths, xs, pic, false)) == multiset(xs)
    ensures forall q :: q in Keep(paths, xs, pic, true) ==> q in xs && Started(paths, q) && Inside(paths, pic, q)
    ensures forall q :: q in Keep(paths, xs, pic, false) ==> q in xs && Started(paths, q) && !Inside(paths, pic, q)
    decreases |xs|
  {
    if xs != [] {
      KeepCounts(paths, xs[1..], pic);
      assert xs == [xs[0]] + xs[1..];
    }
  }

  /**
   * The split against its reference: the inner list is the inside paths
   * before the cut, the outer list the other paths before the cut followed
   * by the whole remainder from the cut on.
   */
  lemma {:induction false} SplitByCut(paths: seq<TracedPath>, rest: seq<int>, y0: int, pic: Picture)
    requires AllStarted(paths, rest)
    ensures var c := Cut(paths, rest, y0);
      Split(paths, rest, y0, pic)
        == Parts(Keep(paths, rest[..c], pic, true), Keep(paths, rest[..c], pic, false) + rest[c..])
    decreases |rest|
  {
    if rest != [] && Start(paths, rest[0]).y > y0 {
      SplitByCut(paths, rest[1..], y0, pic);
      var c := Cut(paths, rest, y0);
      assert rest[..c][1..] == rest[1..][..c - 1] && rest[..c][0] == rest[0];
      assert rest[1..][c - 1..] == rest[c..];
    }
  }

  /** Cutting a sequence in two splits its multiset. */
  lemma Halves(s: seq<int>, i: int, j: int)
    requires 0 <= i <= j <= |s|
    ensures multiset(s[..j]) == multiset(s[..i]) + multiset(s[i..j])
  {
    assert s[..j] == s[..i] + s[i..j];
  }

  /** The split keeps every path of the sublist exactly once. */
  lemma SplitKeeps(paths: seq<TracedPath>, rest: seq<int>, y0: int, pic: Picture)
    requires AllStarted(paths, rest)
    ensures var r := Split(paths, rest, y0, pic);
      multiset(r.ins) + multiset(r.outs) == multiset(rest)
  {
    var c := Cut(paths, rest, y0);
    SplitByCut(paths, rest, y0, pic);
    KeepCounts(paths, rest[..c], pic);
    Halves(rest, c, |rest|);
    assert rest[..|rest|] == rest;
  }

  /** The inner list holds only paths of the sublist that are inside the head and start above the cut. */
  lemma SplitInside(paths: seq<TracedPath>, rest: seq<int>, y0: int, pic: Picture)
    requires AllStarted(paths, rest)
    ensures forall q :: q in Split(paths, rest, y0, pic).ins ==> q in rest && Started(paths, q) && Inside(paths, pic, q) && Start(paths, q).y > y0
  {
    var c := Cut(paths, rest, y0);
    var before := rest[..c];
    SplitByCut(paths, rest, y0, pic);
    KeepCounts(paths, before, pic);
    forall q | q in Keep(paths, before, pic, true)
      ensures q in rest && Start(paths, q).y > y0
    {
      var k :| 0 <= k < c && before[k] == q;
    }
  }

  /** The path at the cut, if there is one. */
  function AtCut(rest: seq<int>, c: nat): seq<int>
  {
    if c < |rest| then [rest[c]] else []
  }

  /** The as-written split against the reference: its outer list ends with the path at the cut. */
  lemma {:induction false} AsWrittenByCut(paths: seq<TracedPath>, rest: seq<int>, y0: int, pic: Picture)
    requires AllStarted(paths, rest)
    ensures var c := Cut(paths, rest, y0);
      SplitAsWritten(paths, rest, y0, pic)
        == Parts(Keep(paths, rest[..c], pic, true), Keep(paths, rest[..c], pic, false) + AtCut(rest, c))
    decreases |rest|
  {
    if rest != [] && Start(paths, rest[0]).y > y0 {
      var tail := rest[1..];
      AsWrittenByCut(paths, tail, y0, pic);
      var c := Cut(paths, rest, y0);
      assert Cut(paths, tail, y0) == c - 1;
      assert rest[..c][1..] == tail[..c - 1] && rest[..c][0] == rest[0];
      assert AtCut(tail, c - 1) == AtCut(rest, c);
    }
  }

  /**
   * As written, the split keeps the sublist only up to and including the
   * cut: every path after the cut is lost.
   */
  lemma AsWrittenKeeps(paths: seq<TracedPath>, rest: seq<int>, y0: int, pic: Picture)
    requires AllStarted(paths, rest)
    ensures var r := SplitAsWritten(paths, rest, y0, pic);
      multiset(r.ins) + multiset(r.outs) == multiset(rest[..Cut(paths, rest, y0)] + AtCut(rest, Cut(paths, rest, y0)))
  {
    var c := Cut(paths, rest, y0);
    AsWrittenByCut(paths, rest, y0, pic);
    KeepCounts(paths, rest[..c], pic);
  }

  /**
   * Three shapes stacked from top to bottom: path 0 is the head, and paths 1
   * and 2 start below its bounding box. As written, the sublist [1, 2]
   * splits into nothing inside and [1] outside: path 2 disappears from the
   * tree, while the intended split keeps it.
   */
  lemma AsWrittenDropsPath(pic: Picture)
    ensures var paths := [TracedPath([Point(0, 9)], 1, '+'), TracedPath([Point(0, 6)], 1, '+'), TracedPath([Point(0, 3)], 1, '+')];
      && SplitAsWritten(paths, [1, 2], 7, pic) == Parts([], [1])
      && Split(paths, [1, 2], 7, pic) == Parts([], [1, 2])
  {
  }

  /** Keep over a list extended by one path. */
  lemma {:induction false} KeepSnoc(paths: seq<TracedPath>, xs: seq<int>, x: int, pic: Picture, inside: bool)
    requires AllStarted(paths, xs) && Started(paths, x)
    ensures AllStarted(paths, xs + [x])
    ensures Keep(paths, xs + [x], pic, inside)
      == Keep(paths, xs, pic, inside) + (if Inside(paths, pic, x) == inside then [x] else [])
    decreases |xs|
  {
    assert AllStarted(paths, xs + [x]);
    if xs == [] {
      assert [x][1..] == [];
    } else {
      KeepSnoc(paths, xs[1..], x, pic, inside);
      assert (xs + [x])[1..] == xs[1..] + [x];
    }
  }

  /* ---------------------------------------------------------------------- */
  /* building lists through hooks */

  /** A hook at a field of a path of an arena of n paths. */
  predicate Field(n: int, h: Hook)
  {
    h != Local && 0 <= h.p < n
  }

  /** What the field a hook names holds. */
  function Slot(next: seq<int>, childList: seq<int>, h: Hook): int
    requires |childList| == |next| && Field(|next|, h)
  {
    if h.NextOf? then next[h.p] else childList[h.p]
  }

  /**
   * The list xs hangs from the field `start` and its hook `end` is the
   * field after its last node, which holds null: the state of a list that
   * `list_insert_beforehook` builds by appending through `end`.
   */
  predicate Hangs(next: seq<int>, childList: seq<int>, start: Hook, xs: seq<int>, end: Hook)
  {
    && |childList| == |next| && Field(|next|, start) && Field(|next|, end)
    && IsList(next, Slot(next, childList, start), xs)
    && end == (if xs == [] then start else NextOf(xs[|xs| - 1]))
    && Slot(next, childList, end) == Nil
  }

  /** Inserting p through the end hook of a hanging list appends p; p's `Next` is the new end. */
  lemma HangAppend(next: seq<int>, childList: seq<int>, start: Hook, xs: seq<int>, end: Hook, p: int,
                   next': seq<int>, childList': seq<int>)
    requires Hangs(next, childList, start, xs, end)
    requires 0 <= p < |next| && p != start.p && p !in xs && start.p !in xs
    requires end.NextOf? ==> next' == next[p := next[end.p]][end.p := p] && childList' == childList
    requires end.ChildOf? ==> next' == next[p := childList[end.p]] && childList' == childList[end.p := p]
    ensures Hangs(next', childList', start, xs + [p], NextOf(p))
  {
    if xs == [] {
      assert [p][1..] == [];
    } else {
      var head := Slot(next, childList, start);
      TailInsert(next, head, xs, p);
      var last := xs[|xs| - 1];
      assert last in xs;
      assert Slot(next', childList', start) == head;
    }
  }

  /** A hanging list only depends on its own nodes' `Next` fields and its two hooks. */
  lemma HangsFrame(next: seq<int>, childList: seq<int>, next': seq<int>, childList': seq<int>,
                   start: Hook, xs: seq<int>, end: Hook)
    requires Hangs(next, childList, start, xs, end)
    requires |next'| == |next| && |childList'| == |next|
    requires forall q :: q in xs && 0 <= q < |next| ==> next'[q] == next[q]
    requires Slot(next', childList', start) == Slot(next, childList, start)
    requires Slot(next', childList', end) == Nil
    ensures Hangs(next', childList', start, xs, end)
  {
    ListFrame(next, next', Slot(next, childList, start), xs);
  }

  /**
   * One insertion of the split: p goes through the hook of the list xs
   * (hanging from one field of the head), while the other list ys (hanging
   * from the head's other field) and the unvisited remainder zs stay as
   * they are.
   */
  method Place(links: Links, head: int, p: int, hook: Hook, ghost start: Hook, ghost xs: seq<int>,
               ghost start2: Hook, ghost ys: seq<int>, ghost end2: Hook, ghost cur: int, ghost zs: seq<int>)
    returns (hook': Hook)
    requires links.Valid()
    requires Hangs(links.next, links.childList, start, xs, hook)
    requires Hangs(links.next, links.childList, start2, ys, end2)
    requires start.p == head && start2.p == head && start != start2
    requires IsList(links.next, cur, zs)
    requires 0 <= p < |links.next| && p != head && p !in xs && p !in ys && p !in zs
    requires head !in xs && head !in ys && head !in zs
    requires forall q :: q in xs ==> q !in ys && q !in zs
    requires forall q :: q in ys ==> q !in zs
    modifies links
    ensures links.Valid() && |links.next| == old(|links.next|) && links.sibling == old(links.sibling)
    ensures hook' == NextOf(p)
    ensures Hangs(links.next, links.childList, start, xs + [p], hook')
    ensures Hangs(links.next, links.childList, start2, ys, end2)
    ensures IsList(links.next, cur, zs)
    ensures forall q :: 0 <= q < |links.next| && q != p && q != head && q !in xs ==>
      links.next[q] == old(links.next[q]) && links.childList[q] == old(links.childList[q])
  {
    ghost var next, childList := links.next, links.childList;
    var none;
    hook', none := links.InsertBeforeHook(p, hook, Nil);
    HangAppend(next, childList, start, xs, hook, p, links.next, links.childList);
    assert hook.p == head || hook.p in xs by {
      if xs != [] {
        assert xs[|xs| - 1] in xs;
      }
    }
    assert forall q :: q in ys && 0 <= q < |next| ==> links.next[q] == next[q];
    assert end2.p == head || end2.p in ys by {
      if ys != [] {
        assert ys[|ys| - 1] in ys;
      }
    }
    HangsFrame(next, childList, links.next, links.childList, start2, ys, end2);
    ListFrame(next, links.next, cur, zs);
  }

  /**
   * The head, the path p at the cut, the inner list, the outer list and
   * the rest of the sublist after p have no node in common.
   */
  predicate Separate(head: int, p: int, ins: seq<int>, outs: seq<int>, zs: seq<int>)
  {
    && p != head && p !in outs && p !in ins && p !in zs
    && head !in outs && head !in ins && head !in zs
    && (forall q :: q in outs ==> q !in ins && q !in zs)
    && (forall q :: q in ins ==> q !in zs)
  }

  lemma Disjoint(paths: seq<TracedPath>, next: seq<int>, cur: int, rest: seq<int>, i: int, pic: Picture, head: int,
                  ins: seq<int>, outs: seq<int>)
    requires AllStarted(paths, rest) && IsList(next, cur, rest) && head !in rest && 0 <= i < |rest|
    requires ins == Keep(paths, rest[..i], pic, true) && outs == Keep(paths, rest[..i], pic, false)
    ensures head !in ins && head !in outs && head !in rest[i + 1..] && rest[i] != head
    ensures rest[i] !in ins && rest[i] !in outs && rest[i] !in rest[i + 1..]
    ensures forall q :: q in ins ==> q in rest && q !in outs && q !in rest[i + 1..]
    ensures forall q :: q in outs ==> q in rest && q !in rest[i + 1..]
    ensures Separate(head, rest[i], ins, outs, rest[i + 1..])
  {
    ListDistinct(next, cur, rest);
    KeepCounts(paths, rest[..i], pic);
    forall q | q in rest[..i]
      ensures q != rest[i] && q !in rest[i + 1..]
    {
      var k :| 0 <= k < i && rest[k] == q;
    }
    assert rest[i] in rest;
    forall q | q in rest[i + 1..]
      ensures q in rest && q != rest[i]
    {
      var k :| 0 <= k < |rest| - i - 1 && rest[i + 1..][k] == q;
      assert rest[i + 1 + k] == q;
    }
  }

  /** `BM_GET(bm, x, y)` on the scratch bitmap reads the picture it shows. */
  method Probe(bm: PotraceBitmap, x: int, y: int, ghost pic: Picture) returns (b: bool)
    requires bm.Valid() && Shows(bm, pic)
    ensures b == pic(x, y)
  {
    b := BmGet(bm, x, y);
  }

  /** Keep over one more path of a sublist. */
  lemma KeepStep(paths: seq<TracedPath>, rest: seq<int>, i: int, pic: Picture)
    requires AllStarted(paths, rest) && 0 <= i < |rest|
    ensures Keep(paths, rest[..i + 1], pic, true)
      == Keep(paths, rest[..i], pic, true) + (if Inside(paths, pic, rest[i]) then [rest[i]] else [])
    ensures Keep(paths, rest[..i + 1], pic, false)
      == Keep(paths, rest[..i], pic, false) + (if Inside(paths, pic, rest[i]) then [] else [rest[i]])
  {
    assert rest[..i + 1] == rest[..i] + [rest[i]];
    KeepSnoc(paths, rest[..i], rest[i], pic, true);
    KeepSnoc(paths, rest[..i], rest[i], pic, false);
  }

  /** The cut is at i when every earlier path starts above y0 and path i does not (or the sublist ends at i). */
  lemma CutAt(paths: seq<TracedPath>, rest: seq<int>, y0: int, i: int)
    requires AllStarted(paths, rest) && 0 <= i <= |rest|
    requires forall k :: 0 <= k < i ==> Start(paths, rest[k]).y > y0
    requires i < |rest| ==> Start(paths, rest[i]).y <= y0
    ensures Cut(paths, rest, y0) == i
  {
  }

  /**
   * `cur = p.Next; p.Next = null` for the first unvisited path p: the
   * remainder starts at the old `p.Next`, and the two lists being built do
   * not change.
   */
  lemma Unlinked(next: seq<int>, childList: seq<int>, head: int, p: int, ins: seq<int>, hookIn: Hook,
                 outs: seq<int>, hookOut: Hook, zs: seq<int>)
    requires Hangs(next, childList, ChildOf(head), ins, hookIn)
    requires Hangs(next, childList, NextOf(head), outs, hookOut)
    requires IsList(next, p, [p] + zs)
    requires p != head && p !in ins && p !in outs && p !in zs
    ensures 0 <= p < |next|
    ensures IsList(next[p := Nil], next[p], zs)
    ensures Hangs(next[p := Nil], childList, ChildOf(head), ins, hookIn)
    ensures Hangs(next[p := Nil], childList, NextOf(head), outs, hookOut)
  {
    assert ([p] + zs)[1..] == zs;
    ListFrame(next, next[p := Nil], next[p], zs);
    if ins != [] {
      assert ins[|ins| - 1] in ins;
    }
    if outs != [] {
      assert outs[|outs| - 1] in outs;
    }
    HangsFrame(next, childList, next[p := Nil], childList, ChildOf(head), ins, hookIn);
    HangsFrame(next, childList, next[p := Nil], childList, NextOf(head), outs, hookOut);
  }

  /**
   * The state of the split after the first i paths of the sublist rest:
   * the remainder starts at cur, all i paths start above y0, and the inner
   * and outer lists built so far hang from the head's `ChildList` and
   * `Next` with their hooks at their ends.
   */
  ghost predicate Splitting(next: seq<int>, childList: seq<int>, paths: seq<TracedPath>, head: int, y0: int, pic: Picture,
                            rest: seq<int>, i: int, cur: int, ins: seq<int>, outs: seq<int>, hookIn: Hook, hookOut: Hook)
  {
    && 0 <= i <= |rest| && AllStarted(paths, rest) && IsList(next, cur, rest[i..])
    && (forall k :: 0 <= k < i ==> Start(paths, rest[k]).y > y0)
    && ins == Keep(paths, rest[..i], pic, true) && outs == Keep(paths, rest[..i], pic, false)
    && (forall q :: q in ins || q in outs ==> q in rest)
    && Hangs(next, childList, ChildOf(head), ins, hookIn)
    && Hangs(next, childList, NextOf(head), outs, hookOut)
  }

  /** Unlinking the first unvisited path of the split keeps the state of the split. */
  lemma Unlinking(next: seq<int>, childList: seq<int>, paths: seq<TracedPath>, head: int, y0: int, pic: Picture,
                  rest: seq<int>, i: int, p: int, ins: seq<int>, outs: seq<int>, hookIn: Hook, hookOut: Hook,
                  next0: seq<int>, cur0: int)
    requires Splitting(next, childList, paths, head, y0, pic, rest, i, p, ins, outs, hookIn, hookOut)
    requires IsList(next0, cur0, rest) && head !in rest && p != Nil
    ensures i < |rest| && p == rest[i] && 0 <= p < |next|
    ensures IsList(next[p := Nil], next[p], rest[i + 1..])
    ensures Hangs(next[p := Nil], childList, ChildOf(head), ins, hookIn)
    ensures Hangs(next[p := Nil], childList, NextOf(head), outs, hookOut)
  {
    var zs := rest[i + 1..];
    assert rest[i..] == [p] + zs;
    Disjoint(paths, next0, cur0, rest, i, pic, head, ins, outs);
    Unlinked(next, childList, head, p, ins, hookIn, outs, hookOut, zs);
  }

  /**
   * One turn of the loop over a sublist: path p is unlinked (`cur =
   * p.Next; p.Next = null`); if it starts at or below y0 the loop stops
   * there; otherwise p is appended to the head's `ChildList` when the pixel
   * below-right of its first point is set in the scratch bitmap, and to
   * the head's `Next` when it is not.
   */
  method SplitStep(links: Links, head: int, p: int, paths: seq<TracedPath>, bm: PotraceBitmap, y0: int,
                   hookIn: Hook, hookOut: Hook, ghost pic: Picture, ghost next0: seq<int>, ghost cur0: int,
                   ghost rest: seq<int>, ghost i: int, ghost ins: seq<int>, ghost outs: seq<int>)
    returns (cut: bool, cur: int, hookIn': Hook, hookOut': Hook, ghost ins': seq<int>, ghost outs': seq<int>)
    requires links.Valid() && bm.Valid() && Shows(bm, pic) && |links.next| == |paths|
    requires IsList(next0, cur0, rest) && head !in rest && 0 <= head < |paths|
    requires Splitting(links.next, links.childList, paths, head, y0, pic, rest, i, p, ins, outs, hookIn, hookOut)
    requires p != Nil
    modifies links
    ensures links.Valid() && |links.next| == |paths| && links.sibling == old(links.sibling)
    ensures i < |rest| && p == rest[i]
    ensures cut ==> Cut(paths, rest, y0) == i && IsList(links.next, cur, rest[i + 1..])
    ensures cut ==> ins' == ins && outs' == outs && hookIn' == hookIn && hookOut' == hookOut
    ensures cut ==> Hangs(links.next, links.childList, ChildOf(head), ins, hookIn)
    ensures cut ==> Hangs(links.next, links.childList, NextOf(head), outs, hookOut)
    ensures !cut ==> Splitting(links.next, links.childList, paths, head, y0, pic, rest, i + 1, cur, ins', outs', hookIn', hookOut')
    ensures forall q :: 0 <= q < |paths| && q != head && q !in rest ==>
      links.next[q] == old(links.next[q]) && links.childList[q] == old(links.childList[q])
  {
    Unlinking(links.next, links.childList, paths, head, y0, pic, rest, i, p, ins, outs, hookIn, hookOut, next0, cur0);
    cur := links.next[p];
    links.next := links.next[p := Nil];
    cut := paths[p].pt[0].y <= y0;
    if cut {
      CutAt(paths, rest, y0, i);
      hookIn', hookOut', ins', outs' := hookIn, hookOut, ins, outs;
      return;
    }
    hookIn', hookOut', ins', outs' := Assign(links, head, p, cur, paths, bm, y0, hookIn, hookOut, pic, next0, cur0, rest, i, ins, outs);
  }

  /**
   * The second half of a turn of the loop for a path p above the cut,
   * already unlinked: p is appended to the head's `ChildList` when the
   * pixel below-right of its first point is set in the scratch bitmap, and
   * to the head's `Next` when it is not.
   */
  method Assign(links: Links, head: int, p: int, cur: int, paths: seq<TracedPath>, bm: PotraceBitmap, y0: int,
                hookIn: Hook, hookOut: Hook, ghost pic: Picture, ghost next0: seq<int>, ghost cur0: int,
                ghost rest: seq<int>, ghost i: int, ghost ins: seq<int>, ghost outs: seq<int>)
    returns (hookIn': Hook, hookOut': Hook, ghost ins': seq<int>, ghost outs': seq<int>)
    requires links.Valid() && bm.Valid() && Shows(bm, pic) && |links.next| == |paths|
    requires IsList(next0, cur0, rest) && head !in rest && 0 <= head < |paths|
    requires AllStarted(paths, rest) && 0 <= i < |rest| && p == rest[i]
    requires forall k :: 0 <= k <= i ==> Start(paths, rest[k]).y > y0
    requires ins == Keep(paths, rest[..i], pic, true) && outs == Keep(paths, rest[..i], pic, false)
    requires forall q :: q in ins || q in outs ==> q in rest
    requires Hangs(links.next, links.childList, ChildOf(head), ins, hookIn)
    requires Hangs(links.next, links.childList, NextOf(head), outs, hookOut)
    requires IsList(links.next, cur, rest[i + 1..])
    modifies links
    ensures links.Valid() && |links.next| == |paths| && links.sibling == old(links.sibling)
    ensures Splitting(links.next, links.childList, paths, head, y0, pic, rest, i + 1, cur, ins', outs', hookIn', hookOut')
    ensures forall q :: 0 <= q < |paths| && q != head && q !in rest ==>
      links.next[q] == old(links.next[q]) && links.childList[q] == old(links.childList[q])
  {
    ghost var zs := rest[i + 1..];
    ghost var next1, childList1 := links.next, links.childList;
    Disjoint(paths, next0, cur0, rest, i, pic, head, ins, outs);
    KeepStep(paths, rest, i, pic);
    var inside := Probe(bm, paths[p].pt[0].x, paths[p].pt[0].y - 1, pic);
    assert inside == Inside(paths, pic, p);
    hookIn', hookOut', ins', outs' := hookIn, hookOut, ins, outs;
    if inside {
      hookIn' := Place(links, head, p, hookIn, ChildOf(head), ins, NextOf(head), outs, hookOut, cur, zs);
      ins' := ins + [p];
    } else {
      hookOut' := Place(links, head, p, hookOut, NextOf(head), outs, ChildOf(head), ins, hookIn, cur, zs);
      outs' := outs + [p];
    }
    forall q | 0 <= q < |paths| && q != head && q !in rest
      ensures links.next[q] == next1[q] && links.childList[q] == childList1[q]
    {
      assert q != p && q !in ins && q !in outs;
    }
  }

  /**
   * The loop over a sublist up to the cut. It stops at the end of the
   * sublist, with p null, or at the first path that starts at or below y0,
   * which it returns unlinked, with the rest of the sublist in `cur`.
   */
  method SplitLoop(links: Links, head: int, cur0: int, ghost rest: seq<int>, paths: seq<TracedPath>,
                   bm: PotraceBitmap, y0: int, ghost pic: Picture)
    returns (p: int, cur: int, hookIn: Hook, hookOut: Hook)
    requires links.Valid() && bm.Valid() && Shows(bm, pic)
    requires |links.next| == |paths| && AllStarted(paths, rest)
    requires 0 <= head < |paths| && links.next[head] == Nil && links.childList[head] == Nil
    requires IsList(links.next, cur0, rest) && head !in rest
    modifies links
    ensures links.Valid() && |links.next| == |paths| && links.sibling == old(links.sibling)
    ensures var c := Cut(paths, rest, y0);
      && Hangs(links.next, links.childList, ChildOf(head), Keep(paths, rest[..c], pic, true), hookIn)
      && Hangs(links.next, links.childList, NextOf(head), Keep(paths, rest[..c], pic, false), hookOut)
      && (c == |rest| ==> p == Nil)
      && (c < |rest| ==> p == rest[c] && IsList(links.next, cur, rest[c + 1..]))
    ensures forall q :: 0 <= q < |paths| && q != head && q !in rest ==>
      links.next[q] == old(links.next[q]) && links.childList[q] == old(links.childList[q])
  {
    ghost var next0, childList0 := links.next, links.childList;
    hookIn, hookOut := ChildOf(head), NextOf(head);
    cur := cur0;
    ghost var i := 0;
    ghost var ins: seq<int>, outs: seq<int> := [], [];
    assert rest[..0] == [] && rest[0..] == rest;
    while cur != Nil
      invariant links.Valid() && |links.next| == |paths| && links.sibling == old(links.sibling)
      invariant Splitting(links.next, links.childList, paths, head, y0, pic, rest, i, cur, ins, outs, hookIn, hookOut)
      invariant forall q :: 0 <= q < |paths| && q != head && q !in rest ==>
        links.next[q] == next0[q] && links.childList[q] == childList0[q]
      decreases |rest| - i
    {
      p := cur;
      var cut;
      cut, cur, hookIn, hookOut, ins, outs := SplitStep(links, head, p, paths, bm, y0, hookIn, hookOut, pic, next0, cur0, rest, i, ins, outs);
      if cut {
        return;
      }
      i := i + 1;
    }
    CutAt(paths, rest, y0, i);
    p := Nil;
  }

  /**
   * The cut as the C original performs it: `list_insert_beforehook(p,
   * hook_out)` followed by `*hook_out = cur`, which appends p and then the
   * unvisited remainder zs to the head's `Next` list.
   */
  method AttachRemainder(links: Links, head: int, p: int, cur: int, hookIn: Hook, hookOut: Hook,
                         ghost ins: seq<int>, ghost outs: seq<int>, ghost zs: seq<int>)
    requires links.Valid()
    requires Hangs(links.next, links.childList, NextOf(head), outs, hookOut)
    requires Hangs(links.next, links.childList, ChildOf(head), ins, hookIn)
    requires IsList(links.next, cur, zs)
    requires 0 <= p < |links.next| && Separate(head, p, ins, outs, zs)
    modifies links
    ensures links.Valid() && |links.next| == old(|links.next|) && links.sibling == old(links.sibling)
    ensures IsList(links.next, links.next[head], outs + [p] + zs)
    ensures IsList(links.next, links.childList[head], ins)
    ensures forall q :: 0 <= q < |links.next| && q != p && q != head && q !in outs ==>
      links.next[q] == old(links.next[q]) && links.childList[q] == old(links.childList[q])
  {
    var hook := Place(links, head, p, hookOut, NextOf(head), outs, ChildOf(head), ins, hookIn, cur, zs);
    ghost var next1 := links.next;
    links.next := links.next[p := cur];
    ListConcat(next1, next1[head], outs + [p], cur, zs);
    ListFrame(next1, links.next, links.childList[head], ins);
  }

  /**
   * The cut as the C# port performs it: p goes through the hook of the
   * outer list, then the hook is rebound to the local `cur`, which stores
   * nothing, so p ends the head's `Next` list.
   */
  method AttachAsWritten(links: Links, head: int, p: int, cur: int, hookIn: Hook, hookOut: Hook,
                         ghost ins: seq<int>, ghost outs: seq<int>, ghost zs: seq<int>)
    requires links.Valid()
    requires Hangs(links.next, links.childList, NextOf(head), outs, hookOut)
    requires Hangs(links.next, links.childList, ChildOf(head), ins, hookIn)
    requires IsList(links.next, cur, zs)
    requires 0 <= p < |links.next| && Separate(head, p, ins, outs, zs)
    modifies links
    ensures links.Valid() && |links.next| == old(|links.next|) && links.sibling == old(links.sibling)
    ensures IsList(links.next, links.next[head], outs + [p])
    ensures IsList(links.next, links.childList[head], ins)
    ensures forall q :: 0 <= q < |links.next| && q != p && q != head && q !in outs ==>
      links.next[q] == old(links.next[q]) && links.childList[q] == old(links.childList[q])
  {
    var hook := Place(links, head, p, hookOut, NextOf(head), outs, ChildOf(head), ins, hookIn, cur, zs);
    hook := Local;
  }

  /** The suffix of a sequence from position c, taken apart at its first element. */
  lemma Uncons(s: seq<int>, c: int, prefix: seq<int>)
    requires 0 <= c < |s|
    ensures prefix + [s[c]] + s[c + 1..] == prefix + s[c..]
  {
    assert s[c..] == [s[c]] + s[c + 1..];
  }

  /**
   * The insideness loop of `pathlist_to_tree` for a head and the sublist
   * rest after it, with the cut as the C original performs it: the path at
   * the cut goes to the head's `Next` list and the remainder of the sublist
   * is attached behind it (`*hook_out = cur`). The head's `ChildList` and
   * `Next` then hold the two lists of the split.
   */
  method Partition(links: Links, head: int, cur0: int, ghost rest: seq<int>, paths: seq<TracedPath>,
                   bm: PotraceBitmap, y0: int, ghost pic: Picture)
    requires links.Valid() && bm.Valid() && Shows(bm, pic)
    requires |links.next| == |paths| && AllStarted(paths, rest)
    requires 0 <= head < |paths| && links.next[head] == Nil && links.childList[head] == Nil
    requires IsList(links.next, cur0, rest) && head !in rest
    modifies links
    ensures links.Valid() && |links.next| == |paths| && links.sibling == old(links.sibling)
    ensures IsList(links.next, links.childList[head], Split(paths, rest, y0, pic).ins)
    ensures IsList(links.next, links.next[head], Split(paths, rest, y0, pic).outs)
    ensures forall q :: 0 <= q < |paths| && q != head && q !in rest ==>
      links.next[q] == old(links.next[q]) && links.childList[q] == old(links.childList[q])
  {
    ghost var next0, childList0 := links.next, links.childList;
    var p, cur, hookIn, hookOut := SplitLoop(links, head, cur0, rest, paths, bm, y0, pic);
    SplitByCut(paths, rest, y0, pic);
    ghost var c := Cut(paths, rest, y0);
    ghost var ins, outs := Keep(paths, rest[..c], pic, true), Keep(paths, rest[..c], pic, false);
    if p != Nil {
      Disjoint(paths, next0, cur0, rest, c, pic, head, ins, outs);
      ghost var next1, childList1 := links.next, links.childList;
      AttachRemainder(links, head, p, cur, hookIn, hookOut, ins, outs, rest[c + 1..]);
      Uncons(rest, c, outs);
      forall q | 0 <= q < |paths| && q != head && q !in rest
        ensures links.next[q] == next0[q] && links.childList[q] == childList0[q]
      {
        assert q != p && q !in outs && q !in rest[c + 1..];
        assert next1[q] == next0[q] && childList1[q] == childList0[q];
      }
    } else {
      assert rest[c..] == [];
      assert outs + rest[c..] == outs;
    }
  }

  /**
   * The same loop as the C# port performs it: at the cut the path goes to
   * the head's `Next` list, and the hook is then pointed at the local
   * variable `cur` instead of storing `cur` through it, so the remainder of
   * the sublist is attached nowhere.
   */
  method PartitionAsWritten(links: Links, head: int, cur0: int, ghost rest: seq<int>, paths: seq<TracedPath>,
                            bm: PotraceBitmap, y0: int, ghost pic: Picture)
    requires links.Valid() && bm.Valid() && Shows(bm, pic)
    requires |links.next| == |paths| && AllStarted(paths, rest)
    requires 0 <= head < |paths| && links.next[head] == Nil && links.childList[head] == Nil
    requires IsList(links.next, cur0, rest) && head !in rest
    modifies links
    ensures links.Valid() && |links.next| == |paths| && links.sibling == old(links.sibling)
    ensures IsList(links.next, links.childList[head], SplitAsWritten(paths, rest, y0, pic).ins)
    ensures IsList(links.next, links.next[head], SplitAsWritten(paths, rest, y0, pic).outs)
    ensures forall q :: 0 <= q < |paths| && q != head && q !in rest ==>
      links.next[q] == old(links.next[q]) && links.childList[q] == old(links.childList[q])
  {
    ghost var next0, childList0 := links.next, links.childList;
    var p, cur, hookIn, hookOut := SplitLoop(links, head, cur0, rest, paths, bm, y0, pic);
    ghost var c := Cut(paths, rest, y0);
    ghost var ins, outs := Keep(paths, rest[..c], pic, true), Keep(paths, rest[..c], pic, false);
    AsWrittenByCut(paths, rest, y0, pic);
    if p != Nil {
      Disjoint(paths, next0, cur0, rest, c, pic, head, ins, outs);
      ghost var next1, childList1 := links.next, links.childList;
      AttachAsWritten(links, head, p, cur, hookIn, hookOut, ins, outs, rest[c + 1..]);
      assert AtCut(rest, c) == [p];
      forall q | 0 <= q < |paths| && q != head && q !in rest
        ensures links.next[q] == next0[q] && links.childList[q] == childList0[q]
      {
        assert q != p && q !in outs;
        assert next1[q] == next0[q] && childList1[q] == childList0[q];
      }
    } else {
      assert AtCut(rest, c) == [];
      assert outs + [] == outs;
    }
  }
}
