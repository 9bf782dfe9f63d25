/*
 * Linked lists of paths (lists.h.cs, with the `LambdaProperty` hook of
 * _util.cs).
 *
 * The paths of one bitmap live in an arena: path i is the i-th path
 * object, and its `Next`, `ChildList` and `Sibling` references are the
 * i-th entries of three index sequences, with Nil (-1) for null. A hook
 * (the source's getter/setter pair) names the slot the next inserted path
 * is stored in: a local variable of the caller, or the `Next` or
 * `ChildList` field of some path.
 */
module Lists {

  const Nil: int := -1

  /** `xs` is the list that starts at `head` and follows `next` until Nil. */
  predicate IsList(next: seq<int>, head: int, xs: seq<int>)
    decreases |xs|
  {
    if xs == [] then head == Nil
    else head == xs[0] && 0 <= head < |next| && IsList(next, next[head], xs[1..])
  }

  /** A list is determined by its head. */
  lemma {:induction false} ListUnique(next: seq<int>, head: int, xs: seq<int>, ys: seq<int>)
    requires IsList(next, head, xs) && IsList(next, head, ys)
    ensures xs == ys
    decreases |xs|
  {
    if xs != [] {
      assert ys != [];
      ListUnique(next, next[head], xs[1..], ys[1..]);
      assert xs == [xs[0]] + xs[1..] && ys == [ys[0]] + ys[1..];
    }
  }

  /** Every suffix of a list is the list of its first element. */
  lemma {:induction false} ListSuffix(next: seq<int>, head: int, xs: seq<int>, i: int)
    requires IsList(next, head, xs) && 0 <= i < |xs|
    ensures IsList(next, xs[i], xs[i..])
    decreases i
  {
    if i > 0 {
      ListSuffix(next, next[head], xs[1..], i - 1);
      assert xs[1..][i - 1..] == xs[i..];
    }
  }

  /** The nodes of a list are in the arena and pairwise distinct: a list never meets itself. */
  lemma ListDistinct(next: seq<int>, head: int, xs: seq<int>)
    requires IsList(next, head, xs)
    ensures forall k :: 0 <= k < |xs| ==> 0 <= xs[k] < |next|
    ensures forall i, j :: 0 <= i < j < |xs| ==> xs[i] != xs[j]
  {
    forall k | 0 <= k < |xs|
      ensures 0 <= xs[k] < |next|
    {
      ListSuffix(next, head, xs, k);
    }
    forall i, j | 0 <= i < j < |xs|
      ensures xs[i] != xs[j]
    {
      ListSuffix(next, head, xs, i);
      ListSuffix(next, head, xs, j);
      if xs[i] == xs[j] {
        ListUnique(next, xs[i], xs[i..], xs[j..]);
      }
    }
  }

  /** A list only depends on the links of its own nodes. */
  lemma {:induction false} ListFrame(next: seq<int>, next': seq<int>, head: int, xs: seq<int>)
    requires IsList(next, head, xs)
    requires |next'| == |next|
    requires forall k :: 0 <= k < |xs| && 0 <= xs[k] < |next| ==> next'[xs[k]] == next[xs[k]]
    ensures IsList(next', head, xs)
    decreases |xs|
  {
    if xs != [] {
      ListFrame(next, next', next[head], xs[1..]);
    }
  }

  /** No path occurs twice in s. */
  predicate Distinct(s: seq<int>)
  {
    forall i, j :: 0 <= i < j < |s| ==> s[i] != s[j]
  }

  /** The two halves of a sequence without repetitions have none and share no entry. */
  lemma DistinctSplit(a: seq<int>, b: seq<int>)
    requires Distinct(a + b)
    ensures Distinct(a) && Distinct(b)
    ensures forall q :: q in a ==> q !in b
  {
    forall i, j | 0 <= i < |a| && 0 <= j < |b|
      ensures a[i] != b[j]
    {
      assert (a + b)[i] == a[i] && (a + b)[|a| + j] == b[j];
    }
    forall i, j | 0 <= i < j < |a|
      ensures a[i] != a[j]
    {
      assert (a + b)[i] == a[i] && (a + b)[j] == a[j];
    }
    forall i, j | 0 <= i < j < |b|
      ensures b[i] != b[j]
    {
      assert (a + b)[|a| + i] == b[i] && (a + b)[|a| + j] == b[j];
    }
  }

  /** In a sequence without repetitions every entry occurs once. */
  lemma {:induction false} CountOnce(s: seq<int>, x: int)
    requires Distinct(s)
    ensures multiset(s)[x] == if x in s then 1 else 0
    decreases |s|
  {
    if s != [] {
      assert s == [s[0]] + s[1..];
      assert Distinct(s[1..]) by {
        forall i, j | 0 <= i < j < |s| - 1
          ensures s[1..][i] != s[1..][j]
        {
          assert s[1..][i] == s[i + 1] && s[1..][j] == s[j + 1];
        }
      }
      CountOnce(s[1..], x);
      if s[0] in s[1..] {
        var k :| 0 <= k < |s| - 1 && s[1..][k] == s[0];
        assert s[k + 1] == s[0];
      }
    }
  }

  /** An entry at two positions occurs at least twice. */
  lemma CountTwice(s: seq<int>, i: int, j: int)
    requires 0 <= i < j < |s| && s[i] == s[j]
    ensures multiset(s)[s[i]] >= 2
  {
    assert s == s[..i] + [s[i]] + s[i + 1..j] + [s[j]] + s[j + 1..];
  }

  /** A rearrangement of a sequence without repetitions has none either. */
  lemma MultisetDistinct(s: seq<int>, xs: seq<int>)
    requires multiset(s) == multiset(xs) && Distinct(xs)
    ensures Distinct(s)
  {
    forall i, j | 0 <= i < j < |s|
      ensures s[i] != s[j]
    {
      if s[i] == s[j] {
        CountTwice(s, i, j);
        CountOnce(xs, s[i]);
      }
    }
  }

  /** Two sequences without repetitions and with the same entries are rearrangements of each other. */
  lemma SameEntries(ys: seq<int>, xs: seq<int>)
    requires Distinct(ys) && Distinct(xs)
    requires forall q :: q in ys <==> q in xs
    ensures multiset(ys) == multiset(xs)
  {
    forall x
      ensures multiset(ys)[x] == multiset(xs)[x]
    {
      CountOnce(ys, x);
      CountOnce(xs, x);
    }
  }

  /** A sequence without repetitions has as many distinct entries as positions. */
  lemma {:induction false} DistinctCard(s: seq<int>)
    requires Distinct(s)
    ensures |set q | q in s| == |s|
    decreases |s|
  {
    if s != [] {
      var t := s[..|s| - 1];
      assert Distinct(t) by {
        forall i, j | 0 <= i < j < |t|
          ensures t[i] != t[j]
        {
          assert t[i] == s[i] && t[j] == s[j];
        }
      }
      DistinctCard(t);
      assert s == t + [s[|s| - 1]];
      assert s[|s| - 1] !in t by {
        assert forall k :: 0 <= k < |t| ==> t[k] == s[k] && s[k] != s[|s| - 1];
      }
      assert (set q | q in s) == (set q | q in t) + {s[|s| - 1]};
    }
  }

  /** A subset is no larger than its superset. */
  lemma SubsetCard(a: set<int>, b: set<int>)
    requires a <= b
    ensures |a| <= |b|
  {
    assert b * a == a;
    assert |b - a| == |b| - |b * a|;
  }

  /** The paths 0 .. n-1 of an arena of n paths. */
  function AllPaths(n: nat): (r: set<int>)
    ensures forall q :: q in r <==> 0 <= q < n
    ensures |r| == n
  {
    if n == 0 then {} else AllPaths(n - 1) + {n - 1}
  }

  /**
   * A sequence of paths of an arena of n paths without repetitions has at
   * most n entries, and when it has n it holds every path.
   */
  lemma Pigeonhole(s: seq<int>, n: nat)
    requires Distinct(s) && forall k :: 0 <= k < |s| ==> 0 <= s[k] < n
    ensures |s| <= n
    ensures |s| == n ==> forall q :: 0 <= q < n ==> q in s
  {
    var a, b := (set q | q in s), AllPaths(n);
    DistinctCard(s);
    assert a <= b by {
      forall q | q in a
        ensures q in b
      {
        var k :| 0 <= k < |s| && s[k] == q;
      }
    }
    SubsetCard(a, b);
    if |s| == n {
      forall q | 0 <= q < n
        ensures q in s
      {
        if q !in s {
          assert a <= b - {q};
          SubsetCard(a, b - {q});
        }
      }
    }
  }

  /** Where an inserted path goes: a local variable of the caller, or a `Next` or `ChildList` field. */
  datatype Hook = Local | NextOf(p: int) | ChildOf(p: int)

  /** The link fields of the paths of one arena. */
  class Links {
    var next: seq<int>
    var childList: seq<int>
    var sibling: seq<int>

    /** Three fields per path, each Nil or a path of the arena. */
    ghost predicate Valid()
      reads this
    {
      && |childList| == |next| && |sibling| == |next|
      && (forall i :: 0 <= i < |next| ==> Nil <= next[i] < |next|)
      && (forall i :: 0 <= i < |next| ==> Nil <= childList[i] < |next|)
      && (forall i :: 0 <= i < |next| ==> Nil <= sibling[i] < |next|)
    }

    /** n paths with all links null. */
    constructor (n: nat)
      ensures Valid() && |next| == n
      ensures forall i :: 0 <= i < n ==> next[i] == Nil && childList[i] == Nil && sibling[i] == Nil
    {
      next := seq(n, _ => Nil);
      childList := seq(n, _ => Nil);
      sibling := seq(n, _ => Nil);
    }

    /** A hook whose slot exists: a local variable, or a field of a path of the arena. */
    predicate HookIn(h: Hook)
      reads this
    {
      match h
      case Local => true
      case NextOf(q) => 0 <= q < |next|
      case ChildOf(q) => 0 <= q < |childList|
    }

    /** What the hook's slot holds (`hook.Value`'s getter); `local` is the caller's variable. */
    function HookValue(h: Hook, local: int): int
      reads this
      requires HookIn(h)
    {
      match h
      case Local => local
      case NextOf(q) => next[q]
      case ChildOf(q) => childList[q]
    }

    /**
     * A new path joins the arena (`path_new` in an arena): its index is
     * the old number of paths and its three fields are null.
     */
    method NewPath() returns (p: int)
      requires Valid()
      modifies this
      ensures Valid() && p == old(|next|)
      ensures next == old(next) + [Nil] && childList == old(childList) + [Nil] && sibling == old(sibling) + [Nil]
    {
      p := |next|;
      next, childList, sibling := next + [Nil], childList + [Nil], sibling + [Nil];
    }

    /**
     * `list_forall`: visits the nodes reachable from `head` through `Next`, in
     * order, once each, and stops at null. The action is the caller's; the
     * visit order is returned.
     */
    method ListForall(head: int, ghost xs: seq<int>) returns (visited: seq<int>)
      requires IsList(next, head, xs)
      ensures visited == xs
    {
      visited := [];
      var current := head;
      while current != Nil
        invariant 0 <= |visited| <= |xs|
        invariant visited == xs[..|visited|]
        invariant IsList(next, current, xs[|visited|..])
        decreases |xs| - |visited|
      {
        visited := visited + [current];
        current := next[current];
      }
    }

    /**
     * `list_insert_beforehook(p, hook)`: `p.Next` takes the hook's old target,
     * the hook's slot takes p, and the hook moves to `p.Next`. `local` is the
     * caller's variable for a Local hook and comes back updated.
     */
    method InsertBeforeHook(p: int, h: Hook, local: int) returns (h': Hook, local': int)
      requires 0 <= p < |next| && HookIn(h)
      modifies this
      ensures h' == NextOf(p)
      ensures sibling == old(sibling)
      ensures h == Local ==> next == old(next)[p := local] && childList == old(childList) && local' == p
      ensures h.NextOf? ==> next == old(next)[p := old(next)[h.p]][h.p := p] && childList == old(childList) && local' == local
      ensures h.ChildOf? ==> next == old(next)[p := old(childList)[h.p]] && childList == old(childList)[h.p := p] && local' == local
    {
      next := next[p := HookValue(h, local)];
      local', h' := local, NextOf(p);
      match h
      case Local => local' := p;
      case NextOf(q) => next := next[q := p];
      case ChildOf(q) => childList := childList[q := p];
    }
  }

  /**
   * Successive insertions through one hook append in call order: when the
   * hook is the slot at the end of the list `xs` (the caller's variable for
   * an empty list, otherwise the last node's `Next`) and holds null,
   * inserting a new path p leaves the list `xs + [p]` whose end is `p.Next`.
   */
  lemma TailInsert(next: seq<int>, head: int, xs: seq<int>, p: int)
    requires IsList(next, head, xs)
    requires 0 <= p < |next| && p !in xs
    ensures xs == [] ==> IsList(next[p := Nil], p, [p])
    ensures xs != [] ==> 0 <= xs[|xs| - 1] < |next| && IsList(next[p := Nil][xs[|xs| - 1] := p], head, xs + [p])
  {
    if xs != [] {
      var last := xs[|xs| - 1];
      ListDistinct(next, head, xs);
      ListSuffix(next, head, xs, |xs| - 1);
      assert next[last] == Nil by {
        assert xs[|xs| - 1..] == [last];
      }
      var next' := next[p := Nil][last := p];
      AppendLast(next, next', head, xs, p);
    }
  }

  lemma {:induction false} AppendLast(next: seq<int>, next': seq<int>, head: int, xs: seq<int>, p: int)
    requires IsList(next, head, xs) && xs != []
    requires forall i, j :: 0 <= i < j < |xs| ==> xs[i] != xs[j]
    requires 0 <= p < |next| && p !in xs
    requires |next'| == |next| && next'[p] == Nil
    requires 0 <= xs[|xs| - 1] < |next| && next'[xs[|xs| - 1]] == p
    requires forall k :: 0 <= k < |xs| - 1 && 0 <= xs[k] < |next| ==> next'[xs[k]] == next[xs[k]]
    ensures IsList(next', head, xs + [p])
    decreases |xs|
  {
    if |xs| == 1 {
      assert xs + [p] == [head, p];
      assert [head, p][1..] == [p] && [p][1..] == [];
    } else {
      AppendLast(next, next', next[head], xs[1..], p);
      assert (xs + [p])[1..] == xs[1..] + [p];
    }
  }

  /**
   * Inserting through a hook at the end of a list, as `InsertBeforeHook`
   * does it, extends the list by the inserted path; the new hook is again
   * the end of the list.
   */
  lemma InsertAppends(next: seq<int>, head: int, xs: seq<int>, p: int)
    requires IsList(next, head, xs)
    requires 0 <= p < |next| && p !in xs
    requires xs != []
    ensures 0 <= xs[|xs| - 1] < |next|
    ensures IsList(next[p := next[xs[|xs| - 1]]][xs[|xs| - 1] := p], head, xs + [p])
  {
    ListSuffix(next, head, xs, |xs| - 1);
    assert xs[|xs| - 1..] == [xs[|xs| - 1]];
    TailInsert(next, head, xs, p);
  }

  /** A list is unaffected by paths added to the arena after it. */
  lemma {:induction false} ListGrow(next: seq<int>, head: int, xs: seq<int>, more: seq<int>)
    requires IsList(next, head, xs)
    ensures IsList(next + more, head, xs)
    decreases |xs|
  {
    if xs != [] {
      ListGrow(next, next[head], xs[1..], more);
    }
  }

  /** Storing the head of the list xs into the field of a path t outside it puts t in front. */
  lemma ListCons(next: seq<int>, head: int, xs: seq<int>, t: int)
    requires IsList(next, head, xs) && 0 <= t < |next| && t !in xs
    ensures IsList(next[t := head], t, [t] + xs)
  {
    ListFrame(next, next[t := head], head, xs);
    assert ([t] + xs)[1..] == xs;
  }

  /**
   * Storing the head of the list zs into the `Next` field of the last node
   * of xs joins the two lists.
   */
  lemma {:induction false} ListConcat(next: seq<int>, head: int, xs: seq<int>, zhead: int, zs: seq<int>)
    requires IsList(next, head, xs) && xs != [] && IsList(next, zhead, zs)
    requires forall q :: q in xs ==> q !in zs
    ensures 0 <= xs[|xs| - 1] < |next|
    ensures IsList(next[xs[|xs| - 1] := zhead], head, xs + zs)
    decreases |xs|
  {
    var last := xs[|xs| - 1];
    ListDistinct(next, head, xs);
    var next' := next[last := zhead];
    assert last in xs;
    ListFrame(next, next', zhead, zs);
    if |xs| == 1 {
      assert (xs + zs)[1..] == zs;
    } else {
      ListConcat(next, next[head], xs[1..], zhead, zs);
      assert (xs + zs)[1..] == xs[1..] + zs;
      assert head != last;
    }
  }
}
