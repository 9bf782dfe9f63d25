/*
 * The first phase of `pathlist_to_tree` (decompose.c.cs): turning the path
 * list into a tree.
 *
 * The phase works on a heap of sublists. The heap is linked through the
 * `ChildList` fields of the sublists' first paths, and each sublist through
 * `Next`. A turn of the loop takes the first sublist off the heap, renders
 * its first path (the head) into the scratch bitmap and splits the rest of
 * the sublist into the paths inside the head (`head.ChildList`) and the
 * others (`head.Next`); both new sublists go onto the heap. When the heap
 * is empty, `Next` and `ChildList` encode a forest: every path except the
 * first hangs from exactly one field of exactly one path handled before
 * it.
 *
 * The proof keeps ghost state beside the loop: `done`, the heads handled
 * so far in order; `lists`, the sublists on the heap; and `via`, the field
 * each handled path or waiting sublist hangs from.
 */
module Grow {
  import opened Auxiliary
  import opened Words
  import opened Bitmap
  import opened BitmapOps
  import opened Erase
  import opened Curve
  import opened Lists
  import opened Walk
  import opened PathTree

  /* ---------------------------------------------------------------------- */
  /* the heap of sublists */

  /** The paths of the sublists, one sublist after the other. */
  function Flat(lists: seq<seq<int>>): seq<int>
    decreases |lists|
  {
    if lists == [] then [] else lists[0] + Flat(lists[1..])
  }

  /** The first path of a sublist, or Nil for an empty one. */
  function First(l: seq<int>): int
  {
    if l == [] then Nil else l[0]
  }

  /** The first paths of the sublists: the heap as it is linked through `ChildList`. */
  function Heads(lists: seq<seq<int>>): (hs: seq<int>)
    ensures |hs| == |lists|
    decreases |lists|
  {
    if lists == [] then [] else [First(lists[0])] + Heads(lists[1..])
  }

  /** Putting a sublist on top of the heap, when it is not empty. */
  function Push(l: seq<int>, lists: seq<seq<int>>): seq<seq<int>>
  {
    if l == [] then lists else [l] + lists
  }

  /** `if (t != null) { t.ChildList = heap; }`: the path t goes on top of the heap. */
  function HangOn(childList: seq<int>, heap: int, t: int): seq<int>
    requires t == Nil || 0 <= t < |childList|
  {
    if t == Nil then childList else childList[t := heap]
  }

  /** The heap after `if (t != null) { heap = t; }`. */
  function Top(heap: int, t: int): int
  {
    if t == Nil then heap else t
  }

  /** Recording that the path t, unless it is null, hangs from the field h. */
  function Mark(via: seq<Hook>, t: int, h: Hook): seq<Hook>
    requires t == Nil || 0 <= t < |via|
  {
    if t == Nil then via else via[t := h]
  }

  lemma FlatPush(l: seq<int>, lists: seq<seq<int>>)
    ensures Flat(Push(l, lists)) == l + Flat(lists)
    ensures Heads(Push(l, lists)) == (if l == [] then [] else [l[0]]) + Heads(lists)
  {
    if l != [] {
      assert Push(l, lists)[1..] == lists;
    }
  }

  /** Every path of a sublist of the heap is a path of the heap, and so is every first path. */
  lemma {:induction false} InFlat(lists: seq<seq<int>>, k: int)
    requires 0 <= k < |lists|
    ensures forall q :: q in lists[k] ==> q in Flat(lists)
    ensures lists[k] != [] ==> Heads(lists)[k] == lists[k][0]
    decreases k
  {
    if k > 0 {
      InFlat(lists[1..], k - 1);
    }
  }

  /* ---------------------------------------------------------------------- */
  /* the forest */

  /** Path n hangs from the field via[n] of another path: that field holds n. */
  predicate Linked(next: seq<int>, childList: seq<int>, via: seq<Hook>, n: int)
    requires 0 <= n < |via|
  {
    |childList| == |next| && Field(|next|, via[n]) && Slot(next, childList, via[n]) == n
  }

  /**
   * The field h holds null, or a path other than the root that records h
   * as the one field it hangs from.
   */
  predicate Attached(next: seq<int>, childList: seq<int>, via: seq<Hook>, root: int, h: Hook)
    requires |childList| == |next| && Field(|next|, h)
  {
    var t := Slot(next, childList, h);
    t == Nil || (0 <= t < |via| && t != root && via[t] == h)
  }

  /** The field h holds null, a handled path or the first path of a sublist on the heap. */
  predicate Below(next: seq<int>, childList: seq<int>, done: seq<int>, lists: seq<seq<int>>, h: Hook)
    requires |childList| == |next| && Field(|next|, h)
  {
    var t := Slot(next, childList, h);
    t == Nil || t in done || t in Heads(lists)
  }

  /**
   * The k-th handled path d is final: it is the root or hangs from a field
   * of a path handled before it, and both its fields hold paths that hang
   * from them alone and are handled or waiting on the heap.
   */
  predicate Settled(next: seq<int>, childList: seq<int>, via: seq<Hook>, root: int, done: seq<int>,
                    lists: seq<seq<int>>, k: int)
    requires 0 <= k < |done| && |childList| == |next| && |via| == |next|
  {
    var d := done[k];
    && 0 <= d < |next|
    && (d == root || (Linked(next, childList, via, d) && via[d].p in done[..k]))
    && Attached(next, childList, via, root, NextOf(d)) && Attached(next, childList, via, root, ChildOf(d))
    && Below(next, childList, done, lists, NextOf(d)) && Below(next, childList, done, lists, ChildOf(d))
  }

  /** The first path h of a sublist on the heap is the root or hangs from a field of a handled path. */
  predicate Waiting(next: seq<int>, childList: seq<int>, via: seq<Hook>, root: int, done: seq<int>, h: int)
    requires |via| == |next|
  {
    h == root || (0 <= h < |via| && Linked(next, childList, via, h) && via[h].p in done)
  }

  /** Every path of xs is handled or on the heap, once; the handled paths begin with the root. */
  ghost predicate Counted(root: int, xs: seq<int>, done: seq<int>, lists: seq<seq<int>>)
  {
    && root == First(xs)
    && multiset(done + Flat(lists)) == multiset(xs)
    && (done == [] ==> lists == (if xs == [] then [] else [xs]))
    && (done != [] ==> done[0] == root)
  }

  /** Every sublist is a nonempty list through `Next`, and the heap links their first paths through `ChildList`. */
  ghost predicate Chained(next: seq<int>, childList: seq<int>, heap: int, lists: seq<seq<int>>)
  {
    && (forall k :: 0 <= k < |lists| ==> lists[k] != [] && IsList(next, lists[k][0], lists[k]))
    && IsList(childList, heap, Heads(lists))
  }

  /** Every handled path is settled. */
  ghost predicate AllSettled(next: seq<int>, childList: seq<int>, via: seq<Hook>, root: int, done: seq<int>, lists: seq<seq<int>>)
  {
    && |childList| == |next| && |via| == |next|
    && forall k :: 0 <= k < |done| ==> Settled(next, childList, via, root, done, lists, k)
  }

  /** The first path of every sublist is waiting. */
  ghost predicate AllWaiting(next: seq<int>, childList: seq<int>, via: seq<Hook>, root: int, done: seq<int>, lists: seq<seq<int>>)
  {
    && |via| == |next|
    && forall k :: 0 <= k < |lists| ==> Waiting(next, childList, via, root, done, Heads(lists)[k])
  }

  /**
   * The state of the loop over the heap, for the list xs that starts at
   * root: the handled paths and the sublists on the heap hold every path
   * of xs once; every sublist is a nonempty list, the heap links their
   * first paths; handled paths are settled and first paths waiting.
   */
  ghost predicate Growing(next: seq<int>, childList: seq<int>, via: seq<Hook>, root: int, xs: seq<int>,
                          heap: int, done: seq<int>, lists: seq<seq<int>>)
  {
    && |childList| == |next| && |via| == |next|
    && Counted(root, xs, done, lists)
    && Chained(next, childList, heap, lists)
    && AllSettled(next, childList, via, root, done, lists)
    && AllWaiting(next, childList, via, root, done, lists)
  }

  /** The state of the loop over the heap, read from the links of the arena. */
  ghost predicate GrowState(links: Links, via: seq<Hook>, root: int, xs: seq<int>, heap: int, done: seq<int>, lists: seq<seq<int>>)
    reads links
  {
    Growing(links.next, links.childList, via, root, xs, heap, done, lists)
  }

  /**
   * What the finished first phase leaves: every path of the arena appears
   * once in `done`, the first being the root; each is the root or hangs
   * from a field of a path before it, and each field of each path holds
   * null or a path that hangs from that field alone.
   */
  ghost predicate Forest(next: seq<int>, childList: seq<int>, via: seq<Hook>, root: int, done: seq<int>)
  {
    && |childList| == |next| && |via| == |next| && |done| == |next|
    && Distinct(done) && (done != [] ==> done[0] == root)
    && (forall k :: 0 <= k < |done| ==> 0 <= done[k] < |next|)
    && (forall k :: 0 <= k < |done| ==> done[k] == root || (Linked(next, childList, via, done[k]) && via[done[k]].p in done[..k]))
    && (forall n :: 0 <= n < |next| ==>
          Attached(next, childList, via, root, NextOf(n)) && Attached(next, childList, via, root, ChildOf(n)))
  }

  /* ---------------------------------------------------------------------- */
  /* one turn of the loop over the heap */

  /**
   * Every path occurs once among the handled paths, the head, the rest of
   * its sublist and the other sublists: they are pairwise apart.
   */
  lemma Apart(done: seq<int>, head: int, rest: seq<int>, others: seq<int>, xs: seq<int>)
    requires multiset(done + ([head] + rest) + others) == multiset(xs) && Distinct(xs)
    ensures head !in done && head !in rest && head !in others
    ensures forall q :: q in rest ==> q !in done && q !in others
    ensures forall q :: q in done ==> q !in others
  {
    MultisetDistinct(done + ([head] + rest) + others, xs);
    DistinctSplit(done + ([head] + rest), others);
    DistinctSplit(done, [head] + rest);
    DistinctSplit([head], rest);
    assert head in [head] + rest;
    forall q | q in rest
      ensures q in done + ([head] + rest) && q in [head] + rest
    {
    }
    forall q | q in done
      ensures q in done + ([head] + rest)
    {
    }
  }

  /** The split lists of the rest hold each path of it once, so a turn keeps every path once. */
  lemma TurnKeeps(done: seq<int>, head: int, rest: seq<int>, ins: seq<int>, outs: seq<int>, others: seq<seq<int>>)
    requires multiset(ins) + multiset(outs) == multiset(rest)
    ensures multiset(done + [head] + Flat(Push(ins, Push(outs, others))))
      == multiset(done + ([head] + rest) + Flat(others))
  {
    FlatPush(ins, Push(outs, others));
    FlatPush(outs, others);
  }

  /** The split lists come from the rest: apart from each other, from the head and from everything else. */
  lemma SplitApart(ins: seq<int>, outs: seq<int>, head: int, rest: seq<int>, xs: seq<int>, prefix: seq<int>, suffix: seq<int>)
    requires multiset(ins) + multiset(outs) == multiset(rest)
    requires multiset(prefix + ([head] + rest) + suffix) == multiset(xs) && Distinct(xs)
    ensures forall q :: q in ins ==> q in rest && q !in outs
    ensures forall q :: q in outs ==> q in rest
  {
    forall q | q in ins
      ensures q in rest && q !in outs
    {
      assert q in multiset(ins) && q in multiset(rest);
      if q in outs {
        assert multiset(outs)[q] > 0;
        assert multiset(rest)[q] >= 2;
        assert multiset(prefix + ([head] + rest) + suffix)[q] >= 2;
        CountOnce(xs, q);
      }
    }
    forall q | q in outs
      ensures q in rest
    {
      assert q in multiset(outs) && q in multiset(rest);
    }
  }

  /** The heap after the turn: the new first paths of the split lists on top of the rest of the heap. */
  lemma HeapKept(childList: seq<int>, childListP: seq<int>, head: int, lists: seq<seq<int>>,
                 ins: seq<int>, outs: seq<int>)
    requires lists != [] && lists[0] != [] && head == lists[0][0]
    requires IsList(childList, head, Heads(lists)) && |childListP| == |childList|
    requires forall q :: q in Heads(lists[1..]) && 0 <= q < |childList| ==> childListP[q] == childList[q]
    requires ins == [] || (0 <= ins[0] < |childList| && ins[0] !in Heads(lists[1..]))
    requires outs == [] || (0 <= outs[0] < |childList| && outs[0] !in Heads(lists[1..]))
    requires ins != [] && outs != [] ==> ins[0] != outs[0]
    ensures var t1, t2 := First(outs), First(ins);
      var c1 := HangOn(childListP, childList[head], t1);
      IsList(HangOn(c1, Top(childList[head], t1), t2), Top(Top(childList[head], t1), t2),
             Heads(Push(ins, Push(outs, lists[1..]))))
  {
    var others := lists[1..];
    assert Heads(lists) == [head] + Heads(others);
    assert IsList(childList, childList[head], Heads(others));
    ListFrame(childList, childListP, childList[head], Heads(others));
    FlatPush(outs, others);
    FlatPush(ins, Push(outs, others));
    var c1, h1 := HangOn(childListP, childList[head], First(outs)), Top(childList[head], First(outs));
    if outs != [] {
      ListCons(childListP, childList[head], Heads(others), outs[0]);
    }
    assert IsList(c1, h1, Heads(Push(outs, others)));
    if ins != [] {
      ListCons(c1, h1, Heads(Push(outs, others)), ins[0]);
    }
  }

  /** The first paths of the sublists on the heap are among their paths. */
  lemma HeadsInFlat(lists: seq<seq<int>>)
    requires forall k :: 0 <= k < |lists| ==> lists[k] != []
    ensures forall q :: q in Heads(lists) ==> q in Flat(lists)
  {
    forall q | q in Heads(lists)
      ensures q in Flat(lists)
    {
      var k :| 0 <= k < |lists| && Heads(lists)[k] == q;
      InFlat(lists, k);
      assert lists[k][0] in lists[k];
    }
  }

  /** The sublists after a turn: the two split lists, when not empty, on top of the other sublists. */
  lemma ListsKept(next: seq<int>, nextP: seq<int>, ins: seq<int>, outs: seq<int>, others: seq<seq<int>>,
                  head: int, rest: seq<int>)
    requires |nextP| == |next|
    requires ins == [] || IsList(nextP, ins[0], ins)
    requires outs == [] || IsList(nextP, outs[0], outs)
    requires forall k :: 0 <= k < |others| ==> others[k] != [] && IsList(next, others[k][0], others[k])
    requires forall q :: q in Flat(others) ==> q != head && q !in rest
    requires forall q :: 0 <= q < |next| && q != head && q !in rest ==> nextP[q] == next[q]
    ensures var lists := Push(ins, Push(outs, others));
      forall k :: 0 <= k < |lists| ==> lists[k] != [] && IsList(nextP, lists[k][0], lists[k])
  {
    OthersKept(next, nextP, others, head, rest);
    PushKeeps(nextP, outs, others);
    PushKeeps(nextP, ins, Push(outs, others));
  }

  /** The sublists the turn does not touch keep their links. */
  lemma OthersKept(next: seq<int>, nextP: seq<int>, others: seq<seq<int>>, head: int, rest: seq<int>)
    requires |nextP| == |next|
    requires forall k :: 0 <= k < |others| ==> others[k] != [] && IsList(next, others[k][0], others[k])
    requires forall q :: q in Flat(others) ==> q != head && q !in rest
    requires forall q :: 0 <= q < |next| && q != head && q !in rest ==> nextP[q] == next[q]
    ensures forall k :: 0 <= k < |others| ==> IsList(nextP, others[k][0], others[k])
  {
    forall k | 0 <= k < |others|
      ensures IsList(nextP, others[k][0], others[k])
    {
      var l := others[k];
      InFlat(others, k);
      forall j | 0 <= j < |l| && 0 <= l[j] < |next|
        ensures nextP[l[j]] == next[l[j]]
      {
        assert l[j] in l;
      }
      ListFrame(next, nextP, l[0], l);
    }
  }

  /** Pushing a nonempty list onto sublists that are all nonempty lists keeps them so. */
  lemma PushKeeps(next: seq<int>, l: seq<int>, lists: seq<seq<int>>)
    requires l == [] || IsList(next, l[0], l)
    requires forall k :: 0 <= k < |lists| ==> lists[k] != [] && IsList(next, lists[k][0], lists[k])
    ensures var r := Push(l, lists);
      forall k :: 0 <= k < |r| ==> r[k] != [] && IsList(next, r[k][0], r[k])
  {
    if l != [] {
      var r := [l] + lists;
      forall k | 1 <= k < |r|
        ensures r[k] != [] && IsList(next, r[k][0], r[k])
      {
        assert r[k] == lists[k - 1];
      }
    }
  }

  /** A handled path stays settled through a turn: its fields do not change, nor do the records of what they hold. */
  lemma SettledOld(next: seq<int>, childList: seq<int>, via: seq<Hook>, root: int, done: seq<int>, lists: seq<seq<int>>,
                   nextP: seq<int>, childList2: seq<int>, via2: seq<Hook>, lists2: seq<seq<int>>,
                   head: int, rest: seq<int>, k: int)
    requires |childList| == |next| && |via| == |next|
    requires |nextP| == |next| && |childList2| == |next| && |via2| == |next|
    requires 0 <= k < |done| && Settled(next, childList, via, root, done, lists, k)
    requires forall q :: 0 <= q < |next| && q != head && q !in rest ==> nextP[q] == next[q] && childList2[q] == childList[q]
    requires forall q :: 0 <= q < |next| && q !in rest ==> via2[q] == via[q]
    requires forall q :: q in done ==> q !in rest && q != head
    requires forall q :: q in Heads(lists) ==> q !in rest && (q == head || q in Heads(lists2))
    ensures Settled(nextP, childList2, via2, root, done + [head], lists2, k)
  {
    var d := done[k];
    var done2 := done + [head];
    assert done2[k] == d && done2[..k] == done[..k];
    assert d in done;
    if d != root {
      assert via[d].p in done;
    }
    var t1, t2 := next[d], childList[d];
    assert t1 != Nil ==> t1 in done || t1 in Heads(lists);
    assert t2 != Nil ==> t2 in done || t2 in Heads(lists);
  }

  /** The head becomes settled: its fields hold the first paths of the split lists, which hang from them. */
  lemma SettledHead(next: seq<int>, childList: seq<int>, via: seq<Hook>, root: int, done: seq<int>,
                    nextP: seq<int>, childList2: seq<int>, via2: seq<Hook>, lists2: seq<seq<int>>,
                    head: int, rest: seq<int>)
    requires |childList| == |next| && |via| == |next|
    requires |nextP| == |next| && |childList2| == |next| && |via2| == |next|
    requires 0 <= head < |next| && Waiting(next, childList, via, root, done, head) && (head == root || root in done)
    requires forall q :: 0 <= q < |next| && q != head && q !in rest ==> nextP[q] == next[q] && childList2[q] == childList[q]
    requires head !in done && head !in rest && via2[head] == via[head]
    requires forall q :: q in rest ==> 0 <= q < |next|
    requires nextP[head] == Nil || (nextP[head] in rest && via2[nextP[head]] == NextOf(head) && nextP[head] in Heads(lists2))
    requires childList2[head] == Nil || (childList2[head] in rest && via2[childList2[head]] == ChildOf(head) && childList2[head] in Heads(lists2))
    requires forall q :: q in done ==> q !in rest && q != head
    ensures Settled(nextP, childList2, via2, root, done + [head], lists2, |done|)
  {
    var done2 := done + [head];
    assert done2[|done|] == head && done2[..|done|] == done;
  }

  /** The first paths of the sublists keep waiting through a turn, and so do those of the split lists. */
  lemma WaitingKept(next: seq<int>, childList: seq<int>, via: seq<Hook>, root: int, done: seq<int>,
                    nextP: seq<int>, childList2: seq<int>, via2: seq<Hook>, others: seq<int>,
                    head: int, rest: seq<int>, ins: seq<int>, outs: seq<int>)
    requires |childList| == |next| && |via| == |next|
    requires |nextP| == |next| && |childList2| == |next| && |via2| == |next|
    requires forall q :: q in others ==> Waiting(next, childList, via, root, done, q)
    requires forall q :: q in others ==> q !in rest
    requires forall q :: q in done ==> q !in rest && q != head
    requires forall q :: 0 <= q < |next| && q != head && q !in rest ==> nextP[q] == next[q] && childList2[q] == childList[q]
    requires forall q :: 0 <= q < |next| && q !in rest ==> via2[q] == via[q]
    requires 0 <= head < |next|
    requires outs != [] ==> nextP[head] == outs[0] && 0 <= outs[0] < |next| && via2[outs[0]] == NextOf(head)
    requires ins != [] ==> childList2[head] == ins[0] && 0 <= ins[0] < |next| && via2[ins[0]] == ChildOf(head)
    ensures var hs := (if ins == [] then [] else [ins[0]]) + ((if outs == [] then [] else [outs[0]]) + others);
      forall k :: 0 <= k < |hs| ==> Waiting(nextP, childList2, via2, root, done + [head], hs[k])
  {
    var done2 := done + [head];
    assert head in done2;
    forall q | q in others && q != root
      ensures Waiting(nextP, childList2, via2, root, done2, q)
    {
      assert via[q].p in done;
    }
  }

  /** The heap with its first sublist taken apart into the head, the rest of its sublist and the other sublists. */
  lemma Unpack(lists: seq<seq<int>>)
    requires lists != [] && lists[0] != []
    ensures Flat(lists) == ([lists[0][0]] + lists[0][1..]) + Flat(lists[1..])
    ensures Heads(lists) == [lists[0][0]] + Heads(lists[1..])
    ensures forall k :: 0 <= k < |lists| - 1 ==> lists[1..][k] == lists[k + 1]
  {
    assert lists[0] == [lists[0][0]] + lists[0][1..];
  }

  /** Where the paths of a turn are, as far as the proof of the turn needs it. */
  lemma TurnApart(next: seq<int>, xs: seq<int>, done: seq<int>, head: int, rest: seq<int>, others: seq<int>,
                  ins: seq<int>, outs: seq<int>)
    requires Distinct(xs) && multiset(done + ([head] + rest) + others) == multiset(xs)
    requires IsList(next, head, [head] + rest)
    requires multiset(ins) + multiset(outs) == multiset(rest)
    ensures head !in done && head !in rest && head !in others
    ensures forall q :: q in rest ==> q !in done && q !in others && 0 <= q < |next|
    ensures forall q :: q in done ==> q !in rest && q != head
    ensures forall q :: q in ins ==> q in rest && q !in outs
    ensures forall q :: q in outs ==> q in rest
  {
    Apart(done, head, rest, others, xs);
    SplitApart(ins, outs, head, rest, xs, done, others);
    RestInArena(next, head, rest);
  }

  /** The paths after the first of a list are paths of the arena. */
  lemma RestInArena(next: seq<int>, head: int, rest: seq<int>)
    requires IsList(next, head, [head] + rest)
    ensures forall q :: q in rest ==> 0 <= q < |next|
  {
    assert ([head] + rest)[1..] == rest;
    ListDistinct(next, next[head], rest);
  }

  /** The handled paths stay settled through a turn, and the head joins them. */
  lemma SettledKept(next: seq<int>, childList: seq<int>, via: seq<Hook>, root: int, done: seq<int>, lists: seq<seq<int>>,
                    nextP: seq<int>, childList2: seq<int>, via2: seq<Hook>, lists2: seq<seq<int>>,
                    head: int, rest: seq<int>)
    requires |childList| == |next| && |via| == |next|
    requires |nextP| == |next| && |childList2| == |next| && |via2| == |next|
    requires forall k :: 0 <= k < |done| ==> Settled(next, childList, via, root, done, lists, k)
    requires forall q :: 0 <= q < |next| && q != head && q !in rest ==> nextP[q] == next[q] && childList2[q] == childList[q]
    requires forall q :: 0 <= q < |next| && q !in rest ==> via2[q] == via[q]
    requires forall q :: q in done ==> q !in rest && q != head
    requires forall q :: q in Heads(lists) ==> q !in rest && (q == head || q in Heads(lists2))
    requires 0 <= head < |next| && Waiting(next, childList, via, root, done, head) && (head == root || root in done)
    requires head !in rest && via2[head] == via[head]
    requires forall q :: q in rest ==> 0 <= q < |next|
    requires nextP[head] == Nil || (nextP[head] in rest && via2[nextP[head]] == NextOf(head) && nextP[head] in Heads(lists2))
    requires childList2[head] == Nil || (childList2[head] in rest && via2[childList2[head]] == ChildOf(head) && childList2[head] in Heads(lists2))
    ensures forall k :: 0 <= k < |done| + 1 ==> Settled(nextP, childList2, via2, root, done + [head], lists2, k)
  {
    forall k | 0 <= k < |done|
      ensures Settled(nextP, childList2, via2, root, done + [head], lists2, k)
    {
      SettledOld(next, childList, via, root, done, lists, nextP, childList2, via2, lists2, head, rest, k);
    }
    SettledHead(next, childList, via, root, done, nextP, childList2, via2, lists2, head, rest);
  }

  /**
   * What a turn changes besides the split: the two new first paths t1 and
   * t2 (from the rest of the sublist) go on top of the heap, through their
   * `ChildList`, and record the head's fields as the fields they hang from.
   */
  lemma TurnFrame(next: seq<int>, childList: seq<int>, via: seq<Hook>, nextP: seq<int>, childListP: seq<int>,
                  head: int, rest: seq<int>, heap: int, t1: int, t2: int)
    requires |childList| == |next| && |via| == |next| && |nextP| == |next| && |childListP| == |next|
    requires 0 <= head < |next| && head !in rest
    requires t1 == Nil || (0 <= t1 < |next| && t1 in rest)
    requires t2 == Nil || (0 <= t2 < |next| && t2 in rest)
    requires t1 != Nil ==> t1 != t2
    requires t1 == nextP[head] && t2 == childListP[head]
    requires forall q :: 0 <= q < |next| && q != head && q !in rest ==> nextP[q] == next[q] && childListP[q] == childList[q]
    ensures var c2 := HangOn(HangOn(childListP, heap, t1), Top(heap, t1), t2);
      var via2 := Mark(Mark(via, t1, NextOf(head)), t2, ChildOf(head));
      && |c2| == |next| && |via2| == |next|
      && (forall q :: 0 <= q < |next| && q != head && q !in rest ==> nextP[q] == next[q] && c2[q] == childList[q])
      && (forall q :: 0 <= q < |next| && q !in rest ==> via2[q] == via[q])
      && c2[head] == t2 && via2[head] == via[head]
      && (t1 != Nil ==> via2[t1] == NextOf(head))
      && (t2 != Nil ==> via2[t2] == ChildOf(head))
  {
  }

  /**
   * The split of a turn: the head lists[0][0] is in range; the split left
   * the outer list in its `Next` and the inner one in its `ChildList`,
   * holding the rest of the head's sublist between them, and changed no
   * link of other paths.
   */
  ghost predicate TurnSplit(next: seq<int>, childList: seq<int>, lists: seq<seq<int>>, nextP: seq<int>, childListP: seq<int>,
                            ins: seq<int>, outs: seq<int>)
  {
    && lists != [] && lists[0] != []
    && |childList| == |next| && |nextP| == |next| && |childListP| == |next| && 0 <= lists[0][0] < |next|
    && IsList(nextP, nextP[lists[0][0]], outs) && IsList(nextP, childListP[lists[0][0]], ins)
    && multiset(ins) + multiset(outs) == multiset(lists[0][1..])
    && (forall q :: 0 <= q < |next| && q != lists[0][0] && q !in lists[0][1..] ==>
          nextP[q] == next[q] && childListP[q] == childList[q])
  }

  /** A turn keeps every path once. */
  lemma TurnCounts(next: seq<int>, childList: seq<int>, root: int, xs: seq<int>,
                   done: seq<int>, lists: seq<seq<int>>, nextP: seq<int>, childListP: seq<int>,
                   ins: seq<int>, outs: seq<int>)
    requires TurnSplit(next, childList, lists, nextP, childListP, ins, outs) && Counted(root, xs, done, lists)
    ensures Counted(root, xs, done + [lists[0][0]], Push(ins, Push(outs, lists[1..])))
  {
    var head, rest, others := lists[0][0], lists[0][1..], lists[1..];
    Unpack(lists);
    TurnKeeps(done, head, rest, ins, outs, others);
    if done == [] {
      assert lists == [xs];
    }
  }

  /** A turn keeps the sublists and the heap linked. */
  lemma TurnChains(next: seq<int>, childList: seq<int>, root: int, xs: seq<int>,
                   done: seq<int>, lists: seq<seq<int>>, nextP: seq<int>, childListP: seq<int>,
                   ins: seq<int>, outs: seq<int>)
    requires Distinct(xs) && TurnSplit(next, childList, lists, nextP, childListP, ins, outs)
    requires Counted(root, xs, done, lists) && Chained(next, childList, lists[0][0], lists)
    ensures var head, heap := lists[0][0], childList[lists[0][0]];
      var t1, t2 := nextP[head], childListP[head];
      && (t1 == Nil || 0 <= t1 < |childListP|) && (t2 == Nil || 0 <= t2 < |childListP|)
      && Chained(nextP, HangOn(HangOn(childListP, heap, t1), Top(heap, t1), t2), Top(Top(heap, t1), t2),
                 Push(ins, Push(outs, lists[1..])))
  {
    var head, rest, others := lists[0][0], lists[0][1..], lists[1..];
    Unpack(lists);
    TurnApart(next, xs, done, head, rest, Flat(others), ins, outs);
    HeadsInFlat(others);
    ListsKept(next, nextP, ins, outs, others, head, rest);
    HeapKept(childList, childListP, head, lists, ins, outs);
  }

  /**
   * Where the paths of a turn are: the head, the rest of its sublist, the
   * handled paths and the first paths of the other sublists are apart; the
   * split lists come from the rest, and the head is the root unless the
   * root is handled.
   */
  ghost predicate Placed(next: seq<int>, root: int, done: seq<int>, lists: seq<seq<int>>, ins: seq<int>, outs: seq<int>)
  {
    && lists != [] && lists[0] != []
    && var head, rest, others := lists[0][0], lists[0][1..], lists[1..];
    && (head == root || root in done)
    && head !in rest
    && (forall q :: q in rest ==> 0 <= q < |next|)
    && (forall q :: q in done ==> q !in rest && q != head)
    && (forall q :: q in Heads(others) ==> q !in rest)
    && Heads(lists) == [head] + Heads(others)
    && (forall q :: q in ins ==> q in rest && q !in outs)
    && (forall q :: q in outs ==> q in rest)
  }

  /** The places of a turn follow from the loop state. */
  lemma TurnPlaces(next: seq<int>, childList: seq<int>, root: int, xs: seq<int>,
                   done: seq<int>, lists: seq<seq<int>>, nextP: seq<int>, childListP: seq<int>,
                   ins: seq<int>, outs: seq<int>)
    requires Distinct(xs) && TurnSplit(next, childList, lists, nextP, childListP, ins, outs)
    requires Counted(root, xs, done, lists) && Chained(next, childList, lists[0][0], lists)
    ensures Placed(next, root, done, lists, ins, outs)
  {
    var head, rest, others := lists[0][0], lists[0][1..], lists[1..];
    Unpack(lists);
    TurnApart(next, xs, done, head, rest, Flat(others), ins, outs);
    HeadsInFlat(others);
    if done == [] {
      assert lists == [xs];
    } else {
      assert done[0] in done;
    }
  }

  /** A turn keeps the handled paths settled, and settles the head. */
  lemma TurnSettles(next: seq<int>, childList: seq<int>, via: seq<Hook>, root: int,
                    done: seq<int>, lists: seq<seq<int>>, nextP: seq<int>, childListP: seq<int>,
                    ins: seq<int>, outs: seq<int>)
    requires TurnSplit(next, childList, lists, nextP, childListP, ins, outs) && Placed(next, root, done, lists, ins, outs)
    requires AllSettled(next, childList, via, root, done, lists) && Waiting(next, childList, via, root, done, lists[0][0])
    ensures var head, heap := lists[0][0], childList[lists[0][0]];
      var t1, t2 := nextP[head], childListP[head];
      AllSettled(nextP, HangOn(HangOn(childListP, heap, t1), Top(heap, t1), t2),
                 Mark(Mark(via, t1, NextOf(head)), t2, ChildOf(head)),
                 root, done + [head], Push(ins, Push(outs, lists[1..])))
  {
    var head, rest, others := lists[0][0], lists[0][1..], lists[1..];
    var heap := childList[head];
    var t1, t2 := nextP[head], childListP[head];
    var c2 := HangOn(HangOn(childListP, heap, t1), Top(heap, t1), t2);
    var via2 := Mark(Mark(via, t1, NextOf(head)), t2, ChildOf(head));
    var lists2 := Push(ins, Push(outs, others));
    FlatPush(outs, others);
    FlatPush(ins, Push(outs, others));
    TurnFrame(next, childList, via, nextP, childListP, head, rest, heap, t1, t2);
    SettledKept(next, childList, via, root, done, lists, nextP, c2, via2, lists2, head, rest);
  }

  /** After a turn the first paths of the sublists are waiting. */
  lemma TurnWaits(next: seq<int>, childList: seq<int>, via: seq<Hook>, root: int,
                  done: seq<int>, lists: seq<seq<int>>, nextP: seq<int>, childListP: seq<int>,
                  ins: seq<int>, outs: seq<int>)
    requires TurnSplit(next, childList, lists, nextP, childListP, ins, outs) && Placed(next, root, done, lists, ins, outs)
    requires AllWaiting(next, childList, via, root, done, lists)
    ensures var head, heap := lists[0][0], childList[lists[0][0]];
      var t1, t2 := nextP[head], childListP[head];
      AllWaiting(nextP, HangOn(HangOn(childListP, heap, t1), Top(heap, t1), t2),
                 Mark(Mark(via, t1, NextOf(head)), t2, ChildOf(head)),
                 root, done + [head], Push(ins, Push(outs, lists[1..])))
  {
    var head, rest, others := lists[0][0], lists[0][1..], lists[1..];
    var heap := childList[head];
    var t1, t2 := nextP[head], childListP[head];
    var c2 := HangOn(HangOn(childListP, heap, t1), Top(heap, t1), t2);
    var via2 := Mark(Mark(via, t1, NextOf(head)), t2, ChildOf(head));
    FlatPush(outs, others);
    FlatPush(ins, Push(outs, others));
    TurnFrame(next, childList, via, nextP, childListP, head, rest, heap, t1, t2);
    assert forall q :: q in Heads(others) ==> Waiting(next, childList, via, root, done, q) by {
      forall q | q in Heads(others)
        ensures Waiting(next, childList, via, root, done, q)
      {
        var k :| 0 <= k < |others| && Heads(others)[k] == q;
        assert Heads(lists)[k + 1] == q;
      }
    }
    WaitingKept(next, childList, via, root, done, nextP, c2, via2, Heads(others), head, rest, ins, outs);
  }

  /**
   * A turn keeps the state of the loop: the head of the first sublist is
   * handled, and the split lists of the rest of its sublist, which the
   * split leaves in the head's `Next` and `ChildList`, go on top of the
   * heap, the outer list first.
   */
  lemma GrowKeeps(next: seq<int>, childList: seq<int>, via: seq<Hook>, root: int, xs: seq<int>,
                  done: seq<int>, lists: seq<seq<int>>, nextP: seq<int>, childListP: seq<int>,
                  ins: seq<int>, outs: seq<int>)
    requires Distinct(xs) && TurnSplit(next, childList, lists, nextP, childListP, ins, outs)
    requires Growing(next, childList, via, root, xs, lists[0][0], done, lists)
    ensures var head, heap := lists[0][0], childList[lists[0][0]];
      var t1, t2 := nextP[head], childListP[head];
      Growing(nextP, HangOn(HangOn(childListP, heap, t1), Top(heap, t1), t2),
              Mark(Mark(via, t1, NextOf(head)), t2, ChildOf(head)),
              root, xs, Top(Top(heap, t1), t2), done + [head], Push(ins, Push(outs, lists[1..])))
  {
    assert Heads(lists)[0] == lists[0][0];
    TurnCounts(next, childList, root, xs, done, lists, nextP, childListP, ins, outs);
    TurnChains(next, childList, root, xs, done, lists, nextP, childListP, ins, outs);
    TurnPlaces(next, childList, root, xs, done, lists, nextP, childListP, ins, outs);
    TurnSettles(next, childList, via, root, done, lists, nextP, childListP, ins, outs);
    TurnWaits(next, childList, via, root, done, lists, nextP, childListP, ins, outs);
  }

  /* ---------------------------------------------------------------------- */
  /* the loop */

  /**
   * The bounding box setbbox_path computes for a path within the bitmap
   * selects words within the bitmap, or an empty range: when `x1 + 63`
   * overflows, the end column is negative.
   */
  lemma BboxWithin(bm: PotraceBitmap, pts: seq<Point>)
    requires bm.Valid() && InBitmap(pts, bm.w, bm.h)
    ensures BoxWithin(bm, Lowest(Ys(pts), MaxInt32), Highest(Ys(pts), 0),
                      FirstColumn(Lowest(Xs(pts), MaxInt32)), EndColumn(Highest(Xs(pts), 0)))
  {
    CoordsWithin(pts, bm.w, bm.h);
    EndColumnWithin(Highest(Xs(pts), 0), bm.w, bm.dy);
  }

  /** The coordinates of a path within the bitmap are unchanged by the cast to `int`. */
  lemma CoordsWithin(pts: seq<Point>, w: int, h: int)
    requires InBitmap(pts, w, h) && w <= MaxInt32 && h <= MaxInt32
    ensures forall k :: 0 <= k < |pts| ==> 0 <= Xs(pts)[k] <= w && 0 <= Ys(pts)[k] <= h
  {
    forall k | 0 <= k < |pts|
      ensures 0 <= Xs(pts)[k] <= w && 0 <= Ys(pts)[k] <= h
    {
      assert IsInt32(pts[k].x) && IsInt32(pts[k].y);
    }
  }

  /**
   * The end column of a box whose right edge is within a bitmap of dy words
   * per scanline is at most dy: `(x1 + 63) / 64` when the addition does not
   * overflow, and negative when it does.
   */
  lemma EndColumnWithin(x1: int, w: int, dy: int)
    requires 0 <= x1 <= w <= MaxInt32 && WordBits * dy >= w && dy >= 0
    ensures EndColumn(x1) <= dy
  {
    var a := x1 + WordBits - 1;
    if a <= MaxInt32 {
      assert Wrap32(a) == a;
      assert a < WordBits * (dy + 1);
    } else {
      assert Wrap32(a) == (a - MinInt32) % 0x1_0000_0000 + MinInt32;
      assert 0x1_0000_0000 <= a - MinInt32 < 2 * 0x1_0000_0000;
      assert Wrap32(a) < 0;
    }
  }

  /**
   * The scratch bitmap is white: no pixel inside it is black in its words.
   * bm_clear leaves it so, and each turn's clear_bm_with_bbox undoes that
   * turn's xor_path.
   */
  ghost predicate Blank(bm: PotraceBitmap)
    reads bm, bm.mapArray
    requires bm.Valid()
  {
    NoPixel(bm, bm.mapArray[..])
  }

  /** The words s hold no black pixel inside the bitmap. */
  ghost predicate NoPixel(bm: PotraceBitmap, s: seq<Word>)
    reads bm
  {
    forall x, y :: bm.Safe(x, y) && Addressable(s, bm.dy, x, y) ==> !PixelOf(s, bm.dy, x, y)
  }

  /**
   * `(bbox.x1 + 63) / 64` in clear_bm_with_bbox does not wrap for a box
   * within the bitmap. For a width above int.MaxValue - 63 it can, and
   * the clear then writes nothing.
   */
  predicate Clearable(bm: PotraceBitmap)
    reads bm
  {
    bm.w <= MaxInt32 - (WordBits - 1)
  }

  /** What each turn keeps of the scratch bitmap: white whenever the clears can reach all of it. */
  ghost predicate Scratch(bm: PotraceBitmap)
    reads bm, bm.mapArray
    requires bm.Valid()
  {
    Clearable(bm) ==> Blank(bm)
  }

  /** Every black pixel of the words s inside the bitmap lies in the interior of the path. */
  ghost predicate OddOnly(bm: PotraceBitmap, s: seq<Word>, pts: seq<Point>)
    reads bm
  {
    forall x, y :: bm.Safe(x, y) && Addressable(s, bm.dy, x, y) && PixelOf(s, bm.dy, x, y) ==> Odd(Runs(pts), x, y)
  }

  /** xor_path on words with no black pixel leaves black exactly the path's interior. */
  lemma XoredOddOnly(bm: PotraceBitmap, s0: seq<Word>, pts: seq<Point>)
    requires bm.Valid() && |s0| == bm.mapArray.Length && bm.mapArray[..] == Applied(s0, bm.dy, Runs(pts))
    ensures NoPixel(bm, s0) ==> OddOnly(bm, bm.mapArray[..], pts)
  {
    if NoPixel(bm, s0) {
      forall x, y | bm.Safe(x, y) && Addressable(bm.mapArray[..], bm.dy, x, y) && PixelOf(bm.mapArray[..], bm.dy, x, y)
        ensures Odd(Runs(pts), x, y)
      {
        AppliedPixel(s0, bm.dy, Runs(pts), x, y);
      }
    }
  }

  /**
   * clear_bm_with_bbox after xor_path: when every black pixel of the words
   * s1 lies in the path's interior, clearing the path's box leaves the
   * scratch white, as each such pixel lies in the box (RunsInBox), provided
   * the box's end column does not wrap.
   */
  lemma ClearedBlank(bm: PotraceBitmap, s1: seq<Word>, pts: seq<Point>)
    requires bm.Valid() && InBitmap(pts, bm.w, bm.h) && |s1| == bm.mapArray.Length
    requires bm.mapArray[..] == BoxCleared(s1, bm.dy, Lowest(Ys(pts), MaxInt32), Highest(Ys(pts), 0),
                                           FirstColumn(Lowest(Xs(pts), MaxInt32)), EndColumn(Highest(Xs(pts), 0)))
    ensures Clearable(bm) && OddOnly(bm, s1, pts) ==> Blank(bm)
  {
    if Clearable(bm) && OddOnly(bm, s1, pts) {
      forall x, y | bm.Safe(x, y) && Addressable(bm.mapArray[..], bm.dy, x, y)
        ensures !PixelOf(bm.mapArray[..], bm.dy, x, y)
      {
        BoxClearedPixel(s1, bm.dy, Lowest(Ys(pts), MaxInt32), Highest(Ys(pts), 0),
                        FirstColumn(Lowest(Xs(pts), MaxInt32)), EndColumn(Highest(Xs(pts), 0)), x, y);
        if PixelOf(s1, bm.dy, x, y) {
          RunsInBox(pts, bm.w, bm.h, x, y);
        }
      }
    }
  }

  /** An odd number of runs covers a pixel only if some run covers it. */
  lemma {:induction false} OddCovered(runs: seq<Run>, px: int, py: int)
    ensures Odd(runs, px, py) ==> exists i :: 0 <= i < |runs| && Covers(runs[i], px, py)
    decreases |runs|
  {
    if runs != [] && Odd(runs, px, py) && !Covers(runs[0], px, py) {
      OddCovered(runs[1..], px, py);
      var i :| 0 <= i < |runs[1..]| && Covers(runs[1..][i], px, py);
      assert Covers(runs[i + 1], px, py);
    }
  }

  /**
   * The runs from point k on of a path within [xlo, xhi] x [ylo, yhi]:
   * each lies on a row in [ylo, yhi), below the higher end of its edge,
   * and starts from an x in [xlo, xhi].
   */
  lemma {:induction false} RunsFromWithin(pts: seq<Point>, xa: int, y1: int, k: nat, xlo: int, xhi: int, ylo: int, yhi: int)
    requires forall j :: 0 <= j < |pts| ==> xlo <= pts[j].x <= xhi && ylo <= pts[j].y <= yhi
    requires ylo <= y1 <= yhi
    ensures forall i :: 0 <= i < |RunsFrom(pts, xa, y1, k)| ==>
      ylo <= RunsFrom(pts, xa, y1, k)[i].y < yhi && xlo <= RunsFrom(pts, xa, y1, k)[i].x <= xhi
    decreases |pts| - k
  {
    if k < |pts| {
      RunsFromWithin(pts, xa, pts[k].y, k + 1, xlo, xhi, ylo, yhi);
      RunsFromWithin(pts, xa, y1, k + 1, xlo, xhi, ylo, yhi);
    }
  }

  /**
   * Every pixel xor_path inverts lies in the box clear_bm_with_bbox clears
   * after it: the rows from the bbox's y0 to before its y1, and the words
   * from the one holding x0 to the one holding x1, when the end column
   * does not wrap.
   */
  lemma RunsInBox(pts: seq<Point>, w: int, h: int, px: int, py: int)
    requires InBitmap(pts, w, h) && w <= MaxInt32 - (WordBits - 1) && h <= MaxInt32
    requires Odd(Runs(pts), px, py)
    ensures Lowest(Ys(pts), MaxInt32) <= py < Highest(Ys(pts), 0)
    ensures WordBits * FirstColumn(Lowest(Xs(pts), MaxInt32)) <= px < WordBits * EndColumn(Highest(Xs(pts), 0))
  {
    assert pts != [];
    var xlo, xhi := Lowest(Xs(pts), MaxInt32), Highest(Xs(pts), 0);
    var ylo, yhi := Lowest(Ys(pts), MaxInt32), Highest(Ys(pts), 0);
    PathBox(pts, w, h);
    var xa, y1 := AlignDown(pts[0].x), pts[|pts| - 1].y;
    RunsFromWithin(pts, xa, y1, 0, xlo, xhi, ylo, yhi);
    OddCovered(Runs(pts), px, py);
    var i :| 0 <= i < |Runs(pts)| && Covers(Runs(pts)[i], px, py);
    var r := Runs(pts)[i];
    assert r.xa == xa;
    WordColumns(xlo, xhi, pts[0].x, r.x);
  }

  /** The bounding box of a path within the bitmap holds every corner, and lies within the bitmap. */
  lemma PathBox(pts: seq<Point>, w: int, h: int)
    requires InBitmap(pts, w, h) && w <= MaxInt32 && h <= MaxInt32 && pts != []
    ensures 0 <= Lowest(Xs(pts), MaxInt32) && Highest(Xs(pts), 0) <= w && 0 <= Lowest(Ys(pts), MaxInt32)
    ensures forall j :: 0 <= j < |pts| ==> Lowest(Xs(pts), MaxInt32) <= pts[j].x <= Highest(Xs(pts), 0)
    ensures forall j :: 0 <= j < |pts| ==> Lowest(Ys(pts), MaxInt32) <= pts[j].y <= Highest(Ys(pts), 0)
  {
    var xs, ys := Xs(pts), Ys(pts);
    forall j | 0 <= j < |pts|
      ensures xs[j] == pts[j].x && ys[j] == pts[j].y && 0 <= xs[j] <= w && 0 <= ys[j]
    {
      assert IsInt32(pts[j].x) && IsInt32(pts[j].y);
    }
  }

  /**
   * A run from x to the word start xa of a point x0, both within [xlo, xhi],
   * lies within the words from the one holding xlo to the one holding xhi.
   */
  lemma WordColumns(xlo: int, xhi: int, x0: int, x: int)
    requires 0 <= xlo <= x0 <= xhi <= MaxInt32 - (WordBits - 1) && xlo <= x <= xhi
    ensures WordBits * FirstColumn(xlo) <= Min(x, AlignDown(x0))
    ensures Max(x, AlignDown(x0)) <= WordBits * EndColumn(xhi)
  {
    CsDivNonNeg(xlo, WordBits);
    assert xlo / WordBits <= x0 / WordBits;
    assert AlignDown(x0) == WordBits * (x0 / WordBits);
    assert Wrap32(xhi + WordBits - 1) == xhi + WordBits - 1;
    CsDivNonNeg(xhi + WordBits - 1, WordBits);
  }

  /** A nonempty heap starts with the first path of its first sublist, whose other paths follow it through `Next`. */
  lemma HeapTop(next: seq<int>, childList: seq<int>, heap: int, lists: seq<seq<int>>)
    requires Chained(next, childList, heap, lists) && |childList| == |next| && heap != Nil
    ensures lists != [] && lists[0] != [] && heap == lists[0][0] && 0 <= heap < |next|
    ensures IsList(next, next[heap], lists[0][1..]) && heap !in lists[0][1..]
    ensures forall q :: q in lists[0][1..] ==> 0 <= q < |next|
    ensures forall k :: 0 <= k < |lists[0][1..]| ==> 0 <= lists[0][1..][k] < |next|
  {
    assert lists != [];
    ListDistinct(next, heap, lists[0]);
    assert lists[0] == [heap] + lists[0][1..];
    forall q | q in lists[0][1..]
      ensures 0 <= q < |next|
    {
      var k :| 0 <= k < |lists[0][1..]| && lists[0][1..][k] == q;
      assert lists[0][k + 1] == q;
    }
  }

  /**
   * Unlinking the first sublist from the heap and its first path from the
   * sublist: both fields of that path become null.
   */
  method Unlink(links: Links, heap: int) returns (head: int, cur: int, heapRest: int)
    requires links.Valid() && 0 <= heap < |links.next|
    modifies links
    ensures links.Valid() && head == heap
    ensures cur == old(links.next[heap]) && heapRest == old(links.childList[heap])
    ensures links.next == old(links.next)[heap := Nil] && links.childList == old(links.childList)[heap := Nil]
    ensures links.sibling == old(links.sibling)
  {
    cur := heap;
    heapRest := links.childList[cur];
    links.childList := links.childList[cur := Nil];
    head := cur;
    cur := links.next[head];
    links.next := links.next[head := Nil];
  }

  /**
   * Rendering a path into the scratch bitmap with xor_path and taking its
   * bounding box with setbbox_path: the picture left is the old one with
   * the path's interior inverted, which on a white scratch bitmap is that
   * interior alone.
   */
  method RenderHead(bm: PotraceBitmap, bbox: Bbox, pts: seq<Point>) returns (ghost pic: Picture)
    requires bm.Valid() && InBitmap(pts, bm.w, bm.h)
    modifies bm.mapArray, bbox
    ensures bbox.x0 == Lowest(Xs(pts), MaxInt32) && bbox.x1 == Highest(Xs(pts), 0)
    ensures bbox.y0 == Lowest(Ys(pts), MaxInt32) && bbox.y1 == Highest(Ys(pts), 0)
    ensures Shows(bm, pic)
    ensures forall x, y :: pic(x, y) == (old(BmGet(bm, x, y)) != (bm.Safe(x, y) && Odd(Runs(pts), x, y)))
    ensures old(Blank(bm)) ==> OddOnly(bm, bm.mapArray[..], pts)
  {
    ghost var before := Pixels(bm);
    ghost var s0 := bm.mapArray[..];
    XorPath(bm, pts);
    XoredOddOnly(bm, s0, pts);
    SetbboxPath(bbox, pts);
    pic := Pixels(bm);
    forall x, y
      ensures pic(x, y) == (before(x, y) != (bm.Safe(x, y) && Odd(Runs(pts), x, y)))
    {
      if bm.Safe(x, y) {
        Addresses(bm, x, y);
        AppliedPixel(s0, bm.dy, Runs(pts), x, y);
      }
    }
  }

  /**
   * Rendering the head, splitting the rest of its sublist by the picture
   * the rendering leaves, and clearing the head's bounding box again. The
   * split leaves the paths of the rest inside the head in its `ChildList`
   * and the others in its `Next`, in their order, and changes no link of
   * other paths.
   */
  method SplitHead(links: Links, head: int, cur: int, ghost rest: seq<int>, paths: seq<TracedPath>,
                   bm: PotraceBitmap, bbox: Bbox)
    returns (y0: int, ghost pic: Picture)
    requires links.Valid() && bm.Valid() && |links.next| == |paths| && Arena(paths, bm.w, bm.h)
    requires 0 <= head < |paths| && links.next[head] == Nil && links.childList[head] == Nil
    requires IsList(links.next, cur, rest) && head !in rest && AllStarted(paths, rest)
    modifies links, bm.mapArray, bbox
    ensures links.Valid() && |links.next| == |paths| && links.sibling == old(links.sibling)
    ensures y0 == Lowest(Ys(paths[head].pt), MaxInt32)
    ensures forall x, y :: pic(x, y) == (old(BmGet(bm, x, y)) != (bm.Safe(x, y) && Odd(Runs(paths[head].pt), x, y)))
    ensures IsList(links.next, links.childList[head], Split(paths, rest, y0, pic).ins)
    ensures IsList(links.next, links.next[head], Split(paths, rest, y0, pic).outs)
    ensures multiset(Split(paths, rest, y0, pic).ins) + multiset(Split(paths, rest, y0, pic).outs) == multiset(rest)
    ensures forall q :: 0 <= q < |paths| && q != head && q !in rest ==>
      links.next[q] == old(links.next[q]) && links.childList[q] == old(links.childList[q])
    ensures old(Scratch(bm)) ==> Scratch(bm)
  {
    pic := RenderHead(bm, bbox, paths[head].pt);
    y0 := bbox.y0;
    Partition(links, head, cur, rest, paths, bm, y0, pic);
    SplitKeeps(paths, rest, y0, pic);
    BboxWithin(bm, paths[head].pt);
    ghost var s1 := bm.mapArray[..];
    ClearBmWithBbox(bm, bbox);
    ClearedBlank(bm, s1, paths[head].pt);
  }

  /**
   * Scheduling the split lists: the first path t1 of the head's `Next`
   * list, then the first path t2 of its `ChildList` list, goes on top of
   * the heap.
   */
  method Schedule(links: Links, head: int, heap: int) returns (heap': int)
    requires links.Valid() && 0 <= head < |links.next| && Nil <= heap < |links.next|
    requires links.next[head] != head && (links.next[head] != Nil ==> links.next[head] != links.childList[head])
    modifies links
    ensures var t1, t2 := old(links.next[head]), old(links.childList[head]);
      && links.Valid() && links.next == old(links.next) && links.sibling == old(links.sibling)
      && links.childList == HangOn(HangOn(old(links.childList), heap, t1), Top(heap, t1), t2)
      && heap' == Top(Top(heap, t1), t2)
  {
    heap' := heap;
    var t1 := links.next[head];
    if t1 != Nil {
      links.childList := links.childList[t1 := heap'];
      heap' := t1;
    }
    var t2 := links.childList[head];
    if t2 != Nil {
      links.childList := links.childList[t2 := heap'];
      heap' := t2;
    }
  }

  /**
   * After the split of a turn the head's fields hold different paths,
   * neither of them the head, and scheduling them keeps the state of the
   * loop.
   */
  lemma TurnReady(next: seq<int>, childList: seq<int>, via: seq<Hook>, root: int, xs: seq<int>,
                  heap: int, done: seq<int>, lists: seq<seq<int>>, nextP: seq<int>, childListP: seq<int>,
                  ins: seq<int>, outs: seq<int>)
    requires Distinct(xs) && heap != Nil && Growing(next, childList, via, root, xs, heap, done, lists)
    requires lists != [] && lists[0] != [] && heap == lists[0][0] && 0 <= heap < |next|
    requires |nextP| == |next| && |childListP| == |next|
    requires IsList(nextP, childListP[heap], ins) && IsList(nextP, nextP[heap], outs)
    requires multiset(ins) + multiset(outs) == multiset(lists[0][1..])
    requires forall q :: 0 <= q < |next| && q != heap && q !in lists[0][1..] ==>
      nextP[q] == next[q] && childListP[q] == childList[q]
    ensures nextP[heap] != heap && (nextP[heap] != Nil ==> nextP[heap] != childListP[heap])
    ensures var t1, t2 := nextP[heap], childListP[heap];
      Growing(nextP, HangOn(HangOn(childListP, childList[heap], t1), Top(childList[heap], t1), t2),
              Mark(Mark(via, t1, NextOf(heap)), t2, ChildOf(heap)),
              root, xs, Top(Top(childList[heap], t1), t2), done + [heap], Push(ins, Push(outs, lists[1..])))
  {
    assert TurnSplit(next, childList, lists, nextP, childListP, ins, outs);
    TurnPlaces(next, childList, root, xs, done, lists, nextP, childListP, ins, outs);
    GrowKeeps(next, childList, via, root, xs, done, lists, nextP, childListP, ins, outs);
    if outs != [] {
      assert outs[0] in outs;
    }
    if ins != [] {
      assert ins[0] in ins;
    }
  }

  /**
   * The statements of one turn of the loop over the heap: unlink the
   * first sublist and its first path, the head; render the head, split the
   * rest of the sublist and clear the head's box; schedule the two new
   * sublists. nextP and childListP are the links just before the
   * scheduling.
   */
  method TakeTurn(links: Links, heap: int, ghost rest: seq<int>, paths: seq<TracedPath>, bm: PotraceBitmap, bbox: Bbox)
    returns (heap': int, ghost y0: int, ghost pic: Picture, ghost nextP: seq<int>, ghost childListP: seq<int>)
    requires links.Valid() && bm.Valid() && |links.next| == |paths| && Arena(paths, bm.w, bm.h)
    requires 0 <= heap < |paths| && IsList(links.next, links.next[heap], rest) && heap !in rest && AllStarted(paths, rest)
    modifies links, bm.mapArray, bbox
    ensures links.Valid() && links.sibling == old(links.sibling) && |nextP| == |paths| && |childListP| == |paths|
    ensures y0 == Lowest(Ys(paths[heap].pt), MaxInt32)
    ensures forall x, y :: pic(x, y) == (old(BmGet(bm, x, y)) != (bm.Safe(x, y) && Odd(Runs(paths[heap].pt), x, y)))
    ensures IsList(nextP, childListP[heap], Split(paths, rest, y0, pic).ins)
    ensures IsList(nextP, nextP[heap], Split(paths, rest, y0, pic).outs)
    ensures multiset(Split(paths, rest, y0, pic).ins) + multiset(Split(paths, rest, y0, pic).outs) == multiset(rest)
    ensures forall q :: 0 <= q < |paths| && q != heap && q !in rest ==>
      nextP[q] == old(links.next[q]) && childListP[q] == old(links.childList[q])
    ensures var t1, t2 := nextP[heap], childListP[heap];
      && links.next == nextP
      && links.childList == HangOn(HangOn(childListP, old(links.childList[heap]), t1), Top(old(links.childList[heap]), t1), t2)
      && heap' == Top(Top(old(links.childList[heap]), t1), t2)
    ensures old(Scratch(bm)) ==> Scratch(bm)
  {
    ghost var next := links.next;
    var head, cur, heapRest := Unlink(links, heap);
    ListFrame(next, links.next, cur, rest);
    ListDistinct(links.next, cur, rest);
    y0, pic := SplitHead(links, head, cur, rest, paths, bm, bbox);
    nextP, childListP := links.next, links.childList;
    HeadFieldsApart(nextP, childListP, head, rest, Split(paths, rest, y0, pic).ins, Split(paths, rest, y0, pic).outs);
    heap' := Schedule(links, head, heapRest);
  }

  /** After a split the head's two fields hold different paths of the rest, or null. */
  lemma HeadFieldsApart(nextP: seq<int>, childListP: seq<int>, head: int, rest: seq<int>, ins: seq<int>, outs: seq<int>)
    requires Distinct(rest) && head !in rest && 0 <= head < |nextP| && |childListP| == |nextP|
    requires IsList(nextP, nextP[head], outs) && IsList(nextP, childListP[head], ins)
    requires multiset(ins) + multiset(outs) == multiset(rest)
    ensures nextP[head] != head && (nextP[head] != Nil ==> nextP[head] != childListP[head])
  {
    if outs != [] {
      assert outs[0] in multiset(rest);
      if ins != [] && ins[0] == outs[0] {
        assert multiset(rest)[outs[0]] >= 2;
        CountOnce(rest, outs[0]);
      }
    }
  }

  /**
   * One turn of the loop over the heap: take the first sublist off the
   * heap and its first path (the head) off the sublist; render the head
   * and split the rest of the sublist; put the two new sublists on the
   * heap. The head is handled.
   */
  method GrowStep(links: Links, heap: int, paths: seq<TracedPath>, bm: PotraceBitmap, bbox: Bbox,
                  ghost root: int, ghost xs: seq<int>, ghost via: seq<Hook>, ghost done: seq<int>, ghost lists: seq<seq<int>>)
    returns (heap': int, ghost via': seq<Hook>, ghost done': seq<int>, ghost lists': seq<seq<int>>)
    requires links.Valid() && bm.Valid() && |links.next| == |paths| && Arena(paths, bm.w, bm.h)
    requires Distinct(xs) && heap != Nil
    requires GrowState(links, via, root, xs, heap, done, lists)
    requires Scratch(bm)
    modifies links, bm.mapArray, bbox
    ensures links.Valid() && |links.next| == |paths| && links.sibling == old(links.sibling)
    ensures done' == done + [heap]
    ensures GrowState(links, via', root, xs, heap', done', lists')
    ensures Scratch(bm)
  {
    ghost var next, childList := links.next, links.childList;
    HeapTop(next, childList, heap, lists);
    ghost var rest := lists[0][1..];
    ghost var y0, pic, nextP, childListP;
    heap', y0, pic, nextP, childListP := TakeTurn(links, heap, rest, paths, bm, bbox);
    ghost var parts := Split(paths, rest, y0, pic);
    TurnReady(next, childList, via, root, xs, heap, done, lists, nextP, childListP, parts.ins, parts.outs);
    via' := Mark(Mark(via, nextP[heap], NextOf(heap)), childListP[heap], ChildOf(heap));
    lists' := Push(parts.ins, Push(parts.outs, lists[1..]));
    done' := done + [heap];
  }

  /**
   * `list_forall(plist, path => { path.Sibling = path.Next; path.ChildList
   * = null; })`: saves each path's `Next` in its `Sibling` and clears its
   * `ChildList`, visiting the list in order.
   */
  method SaveLinks(links: Links, plist: int, ghost xs: seq<int>)
    requires links.Valid() && IsList(links.next, plist, xs)
    modifies links
    ensures links.Valid() && links.next == old(links.next)
    ensures forall k :: 0 <= k < |xs| ==>
      0 <= xs[k] < |links.next| && links.sibling[xs[k]] == links.next[xs[k]] && links.childList[xs[k]] == Nil
    ensures forall q :: 0 <= q < |links.next| && q !in xs ==>
      links.sibling[q] == old(links.sibling[q]) && links.childList[q] == old(links.childList[q])
  {
    ListDistinct(links.next, plist, xs);
    var visited := links.ListForall(plist, xs);
    ghost var sibling0, childList0 := links.sibling, links.childList;
    for i := 0 to |visited|
      invariant links.Valid() && links.next == old(links.next)
      invariant forall k :: 0 <= k < i ==> links.sibling[xs[k]] == links.next[xs[k]] && links.childList[xs[k]] == Nil
      invariant forall q :: 0 <= q < |links.next| && q !in xs[..i] ==>
        links.sibling[q] == sibling0[q] && links.childList[q] == childList0[q]
    {
      assert xs[..i + 1] == xs[..i] + [xs[i]];
      SavePath(links, visited[i]);
    }
  }

  /** The action on one path: `path.Sibling = path.Next; path.ChildList = null;`. */
  method SavePath(links: Links, path: int)
    requires links.Valid() && 0 <= path < |links.next|
    modifies links
    ensures links.Valid() && links.next == old(links.next)
    ensures links.sibling == old(links.sibling)[path := links.next[path]]
    ensures links.childList == old(links.childList)[path := Nil]
  {
    links.sibling := links.sibling[path := links.next[path]];
    links.childList := links.childList[path := Nil];
  }

  /** Before the loop, the whole list is the one sublist on the heap and its first path is the root. */
  lemma GrowStart(next: seq<int>, childList: seq<int>, plist: int, xs: seq<int>)
    requires IsList(next, plist, xs) && |childList| == |next|
    requires forall k :: 0 <= k < |xs| ==> 0 <= xs[k] < |childList| && childList[xs[k]] == Nil
    ensures Growing(next, childList, seq(|next|, _ => Local), plist, xs, plist, [], if xs == [] then [] else [xs])
  {
    var lists := if xs == [] then [] else [xs];
    if xs != [] {
      assert childList[xs[0]] == Nil && xs[0] == plist;
      assert lists[1..] == [] && [plist][1..] == [];
      assert Flat(lists) == xs;
      assert Heads(lists) == [plist];
      assert IsList(childList, plist, [plist]);
    }
    assert Chained(next, childList, plist, lists);
  }

  /** Every path is handled or on the heap, so a nonempty heap holds a path not yet handled. */
  lemma GrowBound(next: seq<int>, childList: seq<int>, via: seq<Hook>, root: int, xs: seq<int>,
                  heap: int, done: seq<int>, lists: seq<seq<int>>)
    requires Growing(next, childList, via, root, xs, heap, done, lists)
    ensures |done| <= |xs|
    ensures heap != Nil ==> |done| < |xs|
  {
    assert |multiset(done + Flat(lists))| == |multiset(xs)|;
    if heap != Nil {
      assert lists != [];
      assert Flat(lists) == lists[0] + Flat(lists[1..]);
    }
  }

  /**
   * When the heap is empty every path has been handled once, so the links
   * form the forest: each path but the root hangs from exactly one field.
   */
  lemma GrownForest(next: seq<int>, childList: seq<int>, via: seq<Hook>, root: int, xs: seq<int>,
                    done: seq<int>, lists: seq<seq<int>>)
    requires Growing(next, childList, via, root, xs, Nil, done, lists)
    requires Distinct(xs) && |xs| == |next|
    ensures Forest(next, childList, via, root, done)
  {
    assert lists == [];
    assert multiset(done) == multiset(xs);
    MultisetDistinct(done, xs);
    assert |done| == |xs|;
    forall k | 0 <= k < |done|
      ensures 0 <= done[k] < |next|
      ensures done[k] == root || (Linked(next, childList, via, done[k]) && via[done[k]].p in done[..k])
    {
      assert Settled(next, childList, via, root, done, lists, k);
    }
    Pigeonhole(done, |next|);
    forall n | 0 <= n < |next|
      ensures Attached(next, childList, via, root, NextOf(n)) && Attached(next, childList, via, root, ChildOf(n))
    {
      assert n in done;
      var k :| 0 <= k < |done| && done[k] == n;
      assert Settled(next, childList, via, root, done, lists, k);
    }
  }

  /**
   * The loop of the first phase, from the whole list as the one sublist on
   * the heap until the heap is empty, handling one path per turn; the links
   * then form a forest.
   */
  method GrowLoop(links: Links, plist: int, ghost xs: seq<int>, paths: seq<TracedPath>, bm: PotraceBitmap, bbox: Bbox)
    returns (ghost via: seq<Hook>, ghost done: seq<int>)
    requires links.Valid() && bm.Valid() && |links.next| == |paths| && Arena(paths, bm.w, bm.h)
    requires IsList(links.next, plist, xs) && |xs| == |paths|
    requires forall k :: 0 <= k < |xs| ==> 0 <= xs[k] < |links.childList| && links.childList[xs[k]] == Nil
    requires Scratch(bm)
    modifies links, bm.mapArray, bbox
    ensures links.Valid() && |links.next| == |paths| && links.sibling == old(links.sibling)
    ensures Forest(links.next, links.childList, via, plist, done)
    ensures Scratch(bm)
  {
    ListDistinct(links.next, plist, xs);
    GrowStart(links.next, links.childList, plist, xs);
    via, done := seq(|links.next|, _ => Local), [];
    ghost var lists: seq<seq<int>> := if xs == [] then [] else [xs];
    var heap := plist;
    while heap != Nil
      invariant links.Valid() && bm.Valid() && |links.next| == |paths| && links.sibling == old(links.sibling)
      invariant GrowState(links, via, plist, xs, heap, done, lists)
      invariant Scratch(bm)
      decreases |xs| - |done|
    {
      GrowBound(links.next, links.childList, via, plist, xs, heap, done, lists);
      heap, via, done, lists := GrowStep(links, heap, paths, bm, bbox, plist, xs, via, done, lists);
    }
    GrownForest(links.next, links.childList, via, plist, xs, done, lists);
  }

  /**
   * The first phase of pathlist_to_tree over the list plist: save the
   * links, then turn the list into a forest, one turn per path.
   */
  method GrowTree(links: Links, plist: int, ghost xs: seq<int>, paths: seq<TracedPath>, bm: PotraceBitmap, bbox: Bbox)
    returns (ghost via: seq<Hook>, ghost done: seq<int>)
    requires links.Valid() && bm.Valid() && |links.next| == |paths| && Arena(paths, bm.w, bm.h)
    requires IsList(links.next, plist, xs) && |xs| == |paths|
    requires Scratch(bm)
    modifies links, bm.mapArray, bbox
    ensures links.Valid() && |links.next| == |paths|
    ensures forall k :: 0 <= k < |xs| ==> 0 <= xs[k] < |paths| && links.sibling[xs[k]] == old(links.next[xs[k]])
    ensures Forest(links.next, links.childList, via, plist, done)
    ensures Scratch(bm)
  {
    SaveLinks(links, plist, xs);
    via, done := GrowLoop(links, plist, xs, paths, bm, bbox);
  }
}
