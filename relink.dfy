/*
 * The second phase of pathlist_to_tree (decompose.c.cs:368-416): the
 * `Next` fields left by the first phase become the `Sibling` fields, and a
 * new `Next` list is rebuilt from the tree, each positive path followed by
 * its children. The heap here is a list, through `Next`, of the first
 * paths of the sibling lists still to be emitted.
 *
 * The proof follows the paths met so far: `out`, the emitted paths in
 * order; `f`, the path under consideration (none or one); and `q`, the
 * heads waiting on the heap. `open` holds the fields of emitted paths the
 * loops are still about to follow. Every path hangs from exactly one
 * field, so following a field meets a path for the first time, and when
 * nothing is open and nothing waits, every path has been emitted.
 */
module Relink {
  import opened Bitmap
  import opened BitmapOps
  import opened Curve
  import opened Lists
  import opened PathTree
  import opened Grow
  import opened Walk

  /* ---------------------------------------------------------------------- */
  /* copying the sibling structure */

  /**
   * `p = plist; while (p != null) { p1 = p.Sibling; p.Sibling = p.Next; p = p1; }`:
   * walks the saved list through `Sibling` and gives each path of it its
   * `Next` as its new `Sibling`.
   */
  method CopySiblings(links: Links, plist: int, ghost xs: seq<int>)
    requires links.Valid() && IsList(links.sibling, plist, xs)
    modifies links
    ensures links.Valid() && links.next == old(links.next) && links.childList == old(links.childList)
    ensures |links.sibling| == |links.next|
    ensures forall q :: 0 <= q < |links.next| ==>
              links.sibling[q] == if q in xs then links.next[q] else old(links.sibling[q])
  {
    ListDistinct(links.sibling, plist, xs);
    ghost var sibling0 := links.sibling;
    var p := plist;
    ghost var i := 0;
    while p != Nil
      invariant links.Valid() && links.next == old(links.next) && links.childList == old(links.childList)
      invariant |links.sibling| == |sibling0|
      invariant 0 <= i <= |xs| && IsList(sibling0, p, xs[i..])
      invariant forall q :: 0 <= q < |links.next| ==>
                  links.sibling[q] == if q in xs[..i] then links.next[q] else sibling0[q]
      decreases |xs| - i
    {
      assert p == xs[i] && p !in xs[..i];
      var p1 := links.sibling[p];
      links.sibling := links.sibling[p := links.next[p]];
      p := p1;
      assert xs[..i + 1] == xs[..i] + [xs[i]];
      i := i + 1;
    }
    assert xs[..i] == xs;
  }

  /* ---------------------------------------------------------------------- */
  /* the walk over the tree */

  /** Every field of every path holds null or a path other than the root that hangs from that field alone. */
  ghost predicate Hung(sibling: seq<int>, childList: seq<int>, via: seq<Hook>, root: int)
  {
    && |childList| == |sibling| && |via| == |sibling|
    && forall n :: 0 <= n < |sibling| ==>
         Attached(sibling, childList, via, root, NextOf(n)) && Attached(sibling, childList, via, root, ChildOf(n))
  }

  /** The field h of an emitted path is still to be followed, holds null, or holds a path already met. */
  predicate Covered(sibling: seq<int>, childList: seq<int>, met: seq<int>, open: set<Hook>, h: Hook)
    requires |childList| == |sibling| && Field(|sibling|, h)
  {
    h in open || Slot(sibling, childList, h) == Nil || Slot(sibling, childList, h) in met
  }

  /** The paths met so far: emitted, under consideration, waiting on the heap. */
  function Met(out: seq<int>, f: seq<int>, q: seq<int>): seq<int>
  {
    out + f + q
  }

  /** The met paths are distinct paths of the arena. */
  predicate Ranged(n: int, met: seq<int>)
  {
    Distinct(met) && forall k :: 0 <= k < |met| ==> 0 <= met[k] < n
  }

  /** The walk starts at the root: first on the heap, then the first emitted. */
  predicate Rooted(root: int, out: seq<int>, f: seq<int>, q: seq<int>)
  {
    && (out == [] ==> f + q == (if root == Nil then [] else [root]))
    && (out != [] ==> out[0] == root)
  }

  /** An open field belongs to an emitted path and holds null or a path not met yet. */
  predicate Fresh(sibling: seq<int>, childList: seq<int>, out: seq<int>, met: seq<int>, open: set<Hook>)
    requires |childList| == |sibling|
  {
    forall h :: h in open ==> Field(|sibling|, h) && h.p in out && Slot(sibling, childList, h) !in met
  }

  /** Each field of an emitted path is open or covered. */
  predicate Closed(sibling: seq<int>, childList: seq<int>, out: seq<int>, met: seq<int>, open: set<Hook>)
    requires |childList| == |sibling|
  {
    forall m :: m in out && 0 <= m < |sibling| ==>
      Covered(sibling, childList, met, open, NextOf(m)) && Covered(sibling, childList, met, open, ChildOf(m))
  }

  /** Each met path but the root hangs from a field of an emitted path. */
  predicate Reached(via: seq<Hook>, root: int, out: seq<int>, met: seq<int>)
  {
    forall n :: n in met && 0 <= n < |via| ==> n == root || (via[n] != Local && 0 <= via[n].p < |via| && via[n].p in out)
  }

  /** The state of the walk. */
  ghost predicate Visiting(sibling: seq<int>, childList: seq<int>, via: seq<Hook>, root: int,
                          out: seq<int>, f: seq<int>, q: seq<int>, open: set<Hook>)
  {
    var met := Met(out, f, q);
    && |childList| == |sibling| && |via| == |sibling| && |f| <= 1
    && Ranged(|sibling|, met) && Rooted(root, out, f, q)
    && Fresh(sibling, childList, out, met, open) && Closed(sibling, childList, out, met, open)
    && Reached(via, root, out, met)
  }

  /** Distinct sequences without a common entry join into a distinct one. */
  lemma DistinctJoin(a: seq<int>, b: seq<int>)
    requires Distinct(a) && Distinct(b) && forall x :: x in a ==> x !in b
    ensures Distinct(a + b)
  {
    forall i, j | 0 <= i < j < |a + b|
      ensures (a + b)[i] != (a + b)[j]
    {
      if j < |a| {
        assert (a + b)[i] == a[i] && (a + b)[j] == a[j];
      } else if i >= |a| {
        assert (a + b)[i] == b[i - |a|] && (a + b)[j] == b[j - |a|];
      } else {
        assert (a + b)[i] in a && (a + b)[j] == b[j - |a|];
      }
    }
  }

  /** The walk starts with the root (when the list is not empty) as the one head on the heap. */
  lemma WalkStart(sibling: seq<int>, childList: seq<int>, via: seq<Hook>, root: int)
    requires |childList| == |sibling| && |via| == |sibling| && Nil <= root < |sibling|
    ensures Visiting(sibling, childList, via, root, [], [], if root == Nil then [] else [root], {})
  {
  }

  /** Emitting the path f under consideration opens both its fields. */
  lemma Emit(sibling: seq<int>, childList: seq<int>, via: seq<Hook>, root: int,
             out: seq<int>, f: int, q: seq<int>, open: set<Hook>)
    requires Hung(sibling, childList, via, root)
    requires Visiting(sibling, childList, via, root, out, [f], q, open)
    ensures Visiting(sibling, childList, via, root, out + [f], [], q, open + {NextOf(f), ChildOf(f)})
  {
    var met := Met(out, [f], q);
    var open' := open + {NextOf(f), ChildOf(f)};
    assert Met(out + [f], [], q) == met;
    assert f in met && f !in out by {
      assert met[|out|] == f;
      assert met == out + ([f] + q);
      DistinctSplit(out, [f] + q);
    }
    assert 0 <= f < |sibling| by {
      assert met[|out|] == f;
    }
    forall h | h == NextOf(f) || h == ChildOf(f)
      ensures Slot(sibling, childList, h) !in met
    {
      var t := Slot(sibling, childList, h);
      assert Attached(sibling, childList, via, root, h);
    }
    assert Fresh(sibling, childList, out + [f], met, open');
    forall m | m in out + [f] && 0 <= m < |sibling|
      ensures Covered(sibling, childList, met, open', NextOf(m)) && Covered(sibling, childList, met, open', ChildOf(m))
    {
      if m != f {
        assert m in out;
        assert Covered(sibling, childList, met, open, NextOf(m)) && Covered(sibling, childList, met, open, ChildOf(m));
      }
    }
    assert Closed(sibling, childList, out + [f], met, open');
    assert Rooted(root, out + [f], [], q);
  }

  /** The open field h is followed and the path it holds, if any, comes under consideration. */
  lemma Follow(sibling: seq<int>, childList: seq<int>, via: seq<Hook>, root: int,
               out: seq<int>, q: seq<int>, open: set<Hook>, h: Hook)
    requires Hung(sibling, childList, via, root)
    requires Visiting(sibling, childList, via, root, out, [], q, open) && h in open
    ensures Field(|sibling|, h)
    ensures var t := Slot(sibling, childList, h);
      Visiting(sibling, childList, via, root, out, if t == Nil then [] else [t], q, open - {h})
  {
    var t := Slot(sibling, childList, h);
    if t == Nil {
      assert Met(out, [], q) == Met(out, [], q);
    } else {
      Meet(sibling, childList, via, root, out, q, open, h);
      var met := Met(out, [t], q);
      assert met == out + [t] + q;
      assert Met(out, [], q) == out + q;
      DistinctSplit(out, q);
      DistinctJoin(out, [t]);
      DistinctJoin(out + [t], q);
      forall k | 0 <= k < |met|
        ensures 0 <= met[k] < |sibling|
      {
        if k != |out| {
          assert met[k] in out + q;
        }
      }
    }
  }

  /** The open field h is followed and the path it holds joins the heap. */
  lemma Enqueue(sibling: seq<int>, childList: seq<int>, via: seq<Hook>, root: int,
                out: seq<int>, q: seq<int>, open: set<Hook>, h: Hook)
    requires Hung(sibling, childList, via, root)
    requires Visiting(sibling, childList, via, root, out, [], q, open) && h in open
    requires Slot(sibling, childList, h) != Nil
    ensures Visiting(sibling, childList, via, root, out, [], q + [Slot(sibling, childList, h)], open - {h})
  {
    var t := Slot(sibling, childList, h);
    Meet(sibling, childList, via, root, out, q, open, h);
    var met := Met(out, [], q + [t]);
    assert met == (out + q) + [t];
    assert Met(out, [], q) == out + q;
    DistinctJoin(out + q, [t]);
    forall k | 0 <= k < |met|
      ensures 0 <= met[k] < |sibling|
    {
      if k != |met| - 1 {
        assert met[k] in out + q;
      }
    }
  }

  /**
   * What following the open field h to a path t meets: t is new, other
   * open fields hold other paths, and t hangs from h.
   */
  lemma Meet(sibling: seq<int>, childList: seq<int>, via: seq<Hook>, root: int,
             out: seq<int>, q: seq<int>, open: set<Hook>, h: Hook)
    requires Hung(sibling, childList, via, root)
    requires Visiting(sibling, childList, via, root, out, [], q, open) && h in open
    requires Slot(sibling, childList, h) != Nil
    ensures var t := Slot(sibling, childList, h);
      && 0 <= t < |sibling| && t != root && via[t] == h && t !in Met(out, [], q)
      && forall h' :: h' in open && h' != h ==> Slot(sibling, childList, h') != t
  {
    var t := Slot(sibling, childList, h);
    assert Attached(sibling, childList, via, root, h);
    forall h' | h' in open && h' != h
      ensures Slot(sibling, childList, h') != t
    {
      assert Attached(sibling, childList, via, root, h');
    }
  }

  /** The open field h holds null: nothing to follow. */
  lemma Close(sibling: seq<int>, childList: seq<int>, via: seq<Hook>, root: int,
              out: seq<int>, f: seq<int>, q: seq<int>, open: set<Hook>, h: Hook)
    requires Visiting(sibling, childList, via, root, out, f, q, open) && h in open
    requires Slot(sibling, childList, h) == Nil
    ensures Visiting(sibling, childList, via, root, out, f, q, open - {h})
  {
  }

  /** The first head on the heap comes under consideration. */
  lemma Dequeue(sibling: seq<int>, childList: seq<int>, via: seq<Hook>, root: int,
                out: seq<int>, q: seq<int>, open: set<Hook>)
    requires Visiting(sibling, childList, via, root, out, [], q, open) && q != []
    ensures Visiting(sibling, childList, via, root, out, [q[0]], q[1..], open)
  {
    assert Met(out, [q[0]], q[1..]) == Met(out, [], q);
    assert [q[0]] + q[1..] == [] + q;
  }

  /**
   * When nothing is open and nothing waits, the emitted paths are closed
   * under both fields, and since each path of the forest hangs from a path
   * before it, every path has been emitted.
   */
  lemma {:induction false} WalkCovers(sibling: seq<int>, childList: seq<int>, via: seq<Hook>, root: int,
                                      done: seq<int>, out: seq<int>)
    requires Forest(sibling, childList, via, root, done)
    requires Visiting(sibling, childList, via, root, out, [], [], {})
    ensures forall n :: 0 <= n < |sibling| ==> n in out
  {
    assert Met(out, [], []) == out;
    forall k | 0 <= k < |done|
      ensures done[k] in out
    {
      Emitted(sibling, childList, via, root, done, out, k);
    }
    Pigeonhole(done, |sibling|);
    forall n | 0 <= n < |sibling|
      ensures n in out
    {
      assert n in done;
      var k :| 0 <= k < |done| && done[k] == n;
      Emitted(sibling, childList, via, root, done, out, k);
    }
  }

  lemma {:induction false} Emitted(sibling: seq<int>, childList: seq<int>, via: seq<Hook>, root: int,
                                   done: seq<int>, out: seq<int>, k: int)
    requires Forest(sibling, childList, via, root, done)
    requires Visiting(sibling, childList, via, root, out, [], [], {})
    requires 0 <= k < |done|
    ensures done[k] in out
    decreases k
  {
    assert Met(out, [], []) == out;
    var n := done[k];
    if n == root {
      assert out != [] && out[0] == root;
    } else {
      var h := via[n];
      assert h.p in done[..k];
      var j :| 0 <= j < k && done[j] == h.p;
      Emitted(sibling, childList, via, root, done, out, j);
      assert Covered(sibling, childList, out, {}, NextOf(h.p)) && Covered(sibling, childList, out, {}, ChildOf(h.p));
    }
  }

  /** A forest hangs each path from one field alone. */
  lemma ForestHung(sibling: seq<int>, childList: seq<int>, via: seq<Hook>, root: int, done: seq<int>)
    requires Forest(sibling, childList, via, root, done)
    ensures Hung(sibling, childList, via, root)
  {
  }

  /** The met paths are distinct paths of the arena, so there are at most as many as paths. */
  lemma WalkBound(sibling: seq<int>, childList: seq<int>, via: seq<Hook>, root: int,
                  out: seq<int>, f: seq<int>, q: seq<int>, open: set<Hook>)
    requires Visiting(sibling, childList, via, root, out, f, q, open)
    ensures |out| + |f| + |q| <= |sibling|
  {
    Pigeonhole(Met(out, f, q), |sibling|);
  }

  /** The three parts of the met paths are distinct and have no path in common. */
  lemma MetParts(out: seq<int>, f: seq<int>, q: seq<int>)
    requires Distinct(Met(out, f, q))
    ensures Distinct(out) && Distinct(q)
    ensures forall x :: x in out ==> x !in f && x !in q
    ensures forall x :: x in f ==> x !in q
  {
    assert Met(out, f, q) == out + (f + q);
    DistinctSplit(out, f + q);
    DistinctSplit(f, q);
  }

  /* ---------------------------------------------------------------------- */
  /* runs of sibling lists */

  /** Following `next` from start passes through xs and arrives at end. */
  predicate Passes(next: seq<int>, start: int, xs: seq<int>, end: int)
    decreases |xs|
  {
    if xs == [] then start == end
    else start == xs[0] && 0 <= start < |next| && Passes(next, next[start], xs[1..], end)
  }

  /** One more step of a run. */
  lemma {:induction false} PassesExtend(next: seq<int>, start: int, xs: seq<int>, end: int)
    requires Passes(next, start, xs, end) && 0 <= end < |next|
    ensures Passes(next, start, xs + [end], next[end])
    decreases |xs|
  {
    if xs == [] {
      assert [end][1..] == [];
    } else {
      PassesExtend(next, next[start], xs[1..], end);
      assert (xs + [end])[1..] == xs[1..] + [end];
    }
  }

  /** A run that arrives at null is the whole list. */
  lemma {:induction false} PassesList(next: seq<int>, start: int, xs: seq<int>)
    requires Passes(next, start, xs, Nil)
    ensures IsList(next, start, xs)
    decreases |xs|
  {
    if xs != [] {
      PassesList(next, next[start], xs[1..]);
    }
  }

  /* ---------------------------------------------------------------------- */
  /* rebuilding the list */

  /**
   * The state of the rebuilding: the emitted paths form the list that
   * starts in the local `plist` and ends at the hook, and the heap heads
   * form the list that starts in `heap1`.
   */
  ghost predicate Relinking(links: Links, via: seq<Hook>, root: int, out: seq<int>, f: seq<int>, q: seq<int>,
                            open: set<Hook>, plist: int, hook: Hook, heap1: int)
    reads links
  {
    && links.Valid()
    && Hung(links.sibling, links.childList, via, root)
    && Visiting(links.sibling, links.childList, via, root, out, f, q, open)
    && IsList(links.next, plist, out) && hook == (if out == [] then Local else NextOf(out[|out| - 1]))
    && IsList(links.next, heap1, q)
  }

  /**
   * `list_insert_beforehook(p, plist_hook)`: the path under consideration
   * is appended to the rebuilt list, and both its fields become open.
   */
  method Append(links: Links, p: int, hook: Hook, plist: int, heap1: int,
                ghost via: seq<Hook>, ghost root: int, ghost out: seq<int>, ghost q: seq<int>, ghost open: set<Hook>)
    returns (hook': Hook, plist': int)
    requires Relinking(links, via, root, out, [p], q, open, plist, hook, heap1)
    modifies links
    ensures links.sibling == old(links.sibling) && links.childList == old(links.childList)
    ensures Relinking(links, via, root, out + [p], [], q, open + {NextOf(p), ChildOf(p)}, plist', hook', heap1)
  {
    MetParts(out, [p], q);
    assert 0 <= p < |links.next| by {
      assert Met(out, [p], q)[|out|] == p;
    }
    ghost var next0 := links.next;
    if out == [] {
      TailInsert(next0, plist, out, p);
    } else {
      InsertAppends(next0, plist, out, p);
      assert out[|out| - 1] in out;
    }
    hook', plist' := links.InsertBeforeHook(p, hook, plist);
    ListFrame(next0, links.next, heap1, q);
    Emit(links.sibling, links.childList, via, root, out, p, q, open);
  }

  /**
   * The open `ChildList` field of the just emitted child p1: a non-empty
   * child list is appended to the heap, walking a hook from `heap1` to its
   * end (the source's `MoveHookToNext` loop).
   */
  method Defer(links: Links, p1: int, hook: Hook, plist: int, heap1: int,
               ghost via: seq<Hook>, ghost root: int, ghost out: seq<int>, ghost q: seq<int>, ghost open: set<Hook>)
    returns (heap1': int, ghost q': seq<int>)
    requires Relinking(links, via, root, out, [], q, open, plist, hook, heap1) && ChildOf(p1) in open
    modifies links
    ensures links.sibling == old(links.sibling) && links.childList == old(links.childList)
    ensures 0 <= p1 < |links.childList|
    ensures q' == if links.childList[p1] == Nil then q else q + [links.childList[p1]]
    ensures Relinking(links, via, root, out, [], q', open - {ChildOf(p1)}, plist, hook, heap1')
  {
    heap1', q' := heap1, q;
    if links.childList[p1] == Nil {
      Close(links.sibling, links.childList, via, root, out, [], q, open, ChildOf(p1));
      return;
    }
    var c := links.childList[p1];
    var end := HeapEnd(links, heap1, q);
    Enqueue(links.sibling, links.childList, via, root, out, q, open, ChildOf(p1));
    MetParts(out, [], q + [c]);
    ghost var next0 := links.next;
    if q == [] {
      TailInsert(next0, heap1, q, c);
    } else {
      InsertAppends(next0, heap1, q, c);
      assert q[|q| - 1] in q + [c];
    }
    var _, h1 := links.InsertBeforeHook(c, end, heap1);
    heap1', q' := h1, q + [c];
    ListFrame(next0, links.next, plist, out);
  }

  /**
   * `for (; _hook.Value != null; MoveHookToNext()) {}` from `heap1`: the
   * hook ends at the null field after the last heap head.
   */
  method HeapEnd(links: Links, heap1: int, ghost q: seq<int>) returns (end: Hook)
    requires IsList(links.next, heap1, q)
    ensures links.HookIn(end) && links.HookValue(end, heap1) == Nil
    ensures end == if q == [] then Local else NextOf(q[|q| - 1])
  {
    end := Local;
    ghost var i := 0;
    while links.HookValue(end, heap1) != Nil
      invariant links.HookIn(end) && 0 <= i <= |q| && IsList(links.next, links.HookValue(end, heap1), q[i..])
      invariant end == if i == 0 then Local else NextOf(q[i - 1])
      decreases |q| - i
    {
      end := NextOf(links.HookValue(end, heap1));
      i := i + 1;
    }
    assert q[i..] == [];
  }

  /**
   * One turn of the loop over the children of p: the child p1 is appended,
   * its child list deferred, and the loop moves on to p1's sibling.
   */
  method EmitChild(links: Links, p: int, p1: int, hook: Hook, plist: int, heap1: int,
                   ghost via: seq<Hook>, ghost root: int, ghost out: seq<int>, ghost q: seq<int>)
    returns (hook': Hook, plist': int, heap1': int, ghost q': seq<int>)
    requires Relinking(links, via, root, out, [p1], q, {NextOf(p)}, plist, hook, heap1)
    modifies links
    ensures links.sibling == old(links.sibling) && links.childList == old(links.childList)
    ensures 0 <= p1 < |links.sibling|
    ensures var s := links.sibling[p1];
      Relinking(links, via, root, out + [p1], if s == Nil then [] else [s], q', {NextOf(p)}, plist', hook', heap1')
  {
    MetParts(out, [p1], q);
    assert p in out;
    assert 0 <= p1 < |links.next| by {
      assert Met(out, [p1], q)[|out|] == p1;
    }
    hook', plist' := Append(links, p1, hook, plist, heap1, via, root, out, q, {NextOf(p)});
    ghost var open := {NextOf(p)} + {NextOf(p1), ChildOf(p1)};
    heap1', q' := Defer(links, p1, hook', plist', heap1, via, root, out + [p1], q, open);
    assert open - {ChildOf(p1)} == {NextOf(p), NextOf(p1)};
    Follow(links.sibling, links.childList, via, root, out + [p1], q', {NextOf(p), NextOf(p1)}, NextOf(p1));
    assert {NextOf(p), NextOf(p1)} - {NextOf(p1)} == {NextOf(p)};
  }

  /** Appending one path after out + children is appending it to children. */
  lemma AppendOne(out: seq<int>, children: seq<int>, p: int)
    ensures out + children + [p] == out + (children + [p])
  {
  }

  /**
   * The loop over the children of the positive path p just emitted:
   * each child is appended and its own child list deferred to the heap,
   * so the children of p, in sibling order, follow p in the rebuilt list.
   */
  method EmitChildren(links: Links, p: int, hook: Hook, plist: int, heap1: int,
                      ghost via: seq<Hook>, ghost root: int, ghost out: seq<int>, ghost q: seq<int>)
    returns (hook': Hook, plist': int, heap1': int, ghost children: seq<int>, ghost q': seq<int>)
    requires Relinking(links, via, root, out, [], q, {NextOf(p), ChildOf(p)}, plist, hook, heap1)
    modifies links
    ensures links.sibling == old(links.sibling) && links.childList == old(links.childList)
    ensures Relinking(links, via, root, out + children, [], q', {NextOf(p)}, plist', hook', heap1')
    ensures 0 <= p < |links.childList| && IsList(links.sibling, links.childList[p], children)
  {
    assert p in out;
    var p1 := links.childList[p];
    Follow(links.sibling, links.childList, via, root, out, q, {NextOf(p), ChildOf(p)}, ChildOf(p));
    assert {NextOf(p), ChildOf(p)} - {ChildOf(p)} == {NextOf(p)};
    hook', plist', heap1', children, q' := hook, plist, heap1, [], q;
    assert out + children == out;
    while p1 != Nil
      invariant links.sibling == old(links.sibling) && links.childList == old(links.childList)
      invariant Relinking(links, via, root, out + children, if p1 == Nil then [] else [p1], q', {NextOf(p)}, plist', hook', heap1')
      invariant Passes(links.sibling, links.childList[p], children, p1)
      decreases |links.next| - |children|
    {
      WalkBound(links.sibling, links.childList, via, root, out + children, [p1], q', {NextOf(p)});
      hook', plist', heap1', q' := EmitChild(links, p, p1, hook', plist', heap1', via, root, out + children, q');
      PassesExtend(links.sibling, links.childList[p], children, p1);
      AppendOne(out, children, p1);
      children := children + [p1];
      p1 := links.sibling[p1];
    }
    PassesList(links.sibling, links.childList[p], children);
  }

  /**
   * The loop over the sibling list that starts at the heap head `heap`:
   * each path of it is appended, followed by its children.
   */
  method EmitGroup(links: Links, heap: int, hook: Hook, plist: int, heap1: int,
                   ghost via: seq<Hook>, ghost root: int, ghost out: seq<int>, ghost q: seq<int>)
    returns (hook': Hook, plist': int, heap1': int, ghost out': seq<int>, ghost q': seq<int>)
    requires heap != Nil && Relinking(links, via, root, out, [heap], q, {}, plist, hook, heap1)
    modifies links
    ensures links.sibling == old(links.sibling) && links.childList == old(links.childList)
    ensures Relinking(links, via, root, out', [], q', {}, plist', hook', heap1')
    ensures |out| < |out'|
  {
    var p := heap;
    hook', plist', heap1', out', q' := hook, plist, heap1, out, q;
    while p != Nil
      invariant links.sibling == old(links.sibling) && links.childList == old(links.childList)
      invariant Relinking(links, via, root, out', if p == Nil then [] else [p], q', {}, plist', hook', heap1')
      invariant |out| < |out'| || (p == heap && out' == out)
      decreases |links.next| - |out'|
    {
      WalkBound(links.sibling, links.childList, via, root, out', [p], q', {});
      hook', plist' := Append(links, p, hook', plist', heap1', via, root, out', q', {});
      out' := out' + [p];
      assert {} + {NextOf(p), ChildOf(p)} == {NextOf(p), ChildOf(p)};
      ghost var children;
      hook', plist', heap1', children, q' := EmitChildren(links, p, hook', plist', heap1', via, root, out', q');
      out' := out' + children;
      Follow(links.sibling, links.childList, via, root, out', q', {NextOf(p)}, NextOf(p));
      assert {NextOf(p)} - {NextOf(p)} == {};
      p := links.sibling[p];
    }
  }

  /**
   * The rebuilding of pathlist_to_tree's second phase: the heap starts as
   * the root alone and the rebuilt list empty; each turn takes the first
   * heap head and emits its sibling list. The rebuilt list starts at the
   * root and holds every path of the forest once.
   */
  method Rebuild(links: Links, plist: int, ghost via: seq<Hook>, ghost done: seq<int>) returns (ghost ys: seq<int>)
    requires links.Valid() && Nil <= plist < |links.next|
    requires Forest(links.sibling, links.childList, via, plist, done)
    modifies links
    ensures links.Valid() && links.sibling == old(links.sibling) && links.childList == old(links.childList)
    ensures IsList(links.next, plist, ys) && Distinct(ys)
    ensures forall n :: n in ys <==> 0 <= n < |links.next|
  {
    var heap := plist;
    if heap != Nil {
      links.next := links.next[heap := Nil];
      assert [heap][1..] == [];
    }
    var list, hook := Nil, Local;
    ghost var out: seq<int> := [];
    ghost var q := if plist == Nil then [] else [plist];
    ForestHung(links.sibling, links.childList, via, plist, done);
    WalkStart(links.sibling, links.childList, via, plist);
    while heap != Nil
      invariant links.sibling == old(links.sibling) && links.childList == old(links.childList)
      invariant Relinking(links, via, plist, out, [], q, {}, list, hook, heap)
      decreases |links.next| - |out|
    {
      WalkBound(links.sibling, links.childList, via, plist, out, [], q, {});
      var heap1 := links.next[heap];
      Dequeue(links.sibling, links.childList, via, plist, out, q, {});
      hook, list, heap1, out, q := EmitGroup(links, heap, hook, list, heap1, via, plist, out, q[1..]);
      heap := heap1;
    }
    WalkCovers(links.sibling, links.childList, via, plist, done, out);
    assert Met(out, [], []) == out;
    ys := out;
    assert list == plist;
  }

  /* ---------------------------------------------------------------------- */
  /* pathlist_to_tree */

  /**
   * `pathlist_to_tree(plist, bm)`: with the scratch bitmap cleared, the
   * list xs becomes a forest by insideness (first phase), its `Next`
   * fields move to `Sibling`, and `Next` is rebuilt from the tree. The
   * rebuilt list starts at the same path, holds the same paths once each,
   * and the `Sibling` and `ChildList` fields hold the forest.
   */
  method PathlistToTree(links: Links, plist: int, ghost xs: seq<int>, paths: seq<TracedPath>, bm: PotraceBitmap)
    returns (ghost ys: seq<int>, ghost via: seq<Hook>, ghost done: seq<int>)
    requires links.Valid() && bm.Valid() && |links.next| == |paths| && Arena(paths, bm.w, bm.h)
    requires IsList(links.next, plist, xs) && |xs| == |paths|
    modifies links, bm.mapArray
    ensures links.Valid() && |links.next| == |paths|
    ensures IsList(links.next, plist, ys) && multiset(ys) == multiset(xs)
    ensures Forest(links.sibling, links.childList, via, plist, done)
  {
    via, done := FirstPhase(links, plist, xs, paths, bm);
    ys := SecondPhase(links, plist, xs, via, done);
  }

  /**
   * The scratch bitmap is cleared and the first phase turns the list xs
   * into a forest in `Next` and `ChildList`, keeping xs in `Sibling`.
   */
  method FirstPhase(links: Links, plist: int, ghost xs: seq<int>, paths: seq<TracedPath>, bm: PotraceBitmap)
    returns (ghost via: seq<Hook>, ghost done: seq<int>)
    requires links.Valid() && bm.Valid() && |links.next| == |paths| && Arena(paths, bm.w, bm.h)
    requires IsList(links.next, plist, xs) && |xs| == |paths|
    modifies links, bm.mapArray
    ensures links.Valid() && |links.next| == |paths|
    ensures IsList(links.sibling, plist, xs)
    ensures Forest(links.next, links.childList, via, plist, done)
    ensures Scratch(bm)
  {
    ghost var next0 := links.next;
    BmClear(bm);
    forall x, y | bm.Safe(x, y) && Addressable(bm.mapArray[..], bm.dy, x, y)
      ensures !PixelOf(bm.mapArray[..], bm.dy, x, y)
    {
      assert !bm.IsBlack(x, y);
    }
    var bbox := new Bbox();
    via, done := GrowTree(links, plist, xs, paths, bm, bbox);
    ListFrame(next0, links.sibling, plist, xs);
  }

  /**
   * The second phase over the forest the first one leaves in `Next` and
   * `ChildList`, with the saved list xs in `Sibling`: the forest moves to
   * `Sibling` and `ChildList`, and the rebuilt list holds the paths of xs.
   */
  method SecondPhase(links: Links, plist: int, ghost xs: seq<int>, ghost via: seq<Hook>, ghost done: seq<int>)
    returns (ghost ys: seq<int>)
    requires links.Valid() && IsList(links.sibling, plist, xs) && |xs| == |links.next|
    requires Forest(links.next, links.childList, via, plist, done)
    modifies links
    ensures links.Valid() && |links.next| == old(|links.next|)
    ensures IsList(links.next, plist, ys) && multiset(ys) == multiset(xs)
    ensures Forest(links.sibling, links.childList, via, plist, done)
  {
    ListDistinct(links.sibling, plist, xs);
    Pigeonhole(xs, |links.next|);
    CopySiblings(links, plist, xs);
    assert links.sibling == links.next;
    assert plist != Nil ==> plist == xs[0];
    ys := Rebuild(links, plist, via, done);
    SameEntries(ys, xs);
  }
}
