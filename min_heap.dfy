/** An array-backed binary min-heap of (priority, item) entries.

    The heap is a list of entries read as a complete binary tree: the
    children of index k are 2k+1 and 2k+2, and the parent of i > 0 is
    (i-1)/2. Only priorities are ever compared; items are carried along.
 */
module MinHeaps {

  /** One stored pair. Priorities are integers; the item is opaque. */
  datatype Entry<T> = Entry(priority: int, item: T)

  /** The result of peek and pop: None when the heap is empty. */
  datatype Option<T> = None | Some(value: T)

  // ---------------------------------------------------------------------
  // Implicit tree layout
  // ---------------------------------------------------------------------

  /** The left child of k; it comes after k in the list. */
  function Left(k: nat): (c: nat)
    ensures k < c
  {
    2 * k + 1
  }

  /** The right child of k; it sits just after its left sibling. */
  function Right(k: nat): (c: nat)
    ensures Left(k) < c
  {
    2 * k + 2
  }

  /** The parent of a non-root index. */
  function Parent(i: nat): (p: nat)
    requires 0 < i
    ensures p < i
  {
    (i - 1) / 2
  }

  /** Parent and the two child functions are inverse to each other. */
  lemma ParentOfChildren(k: nat)
    ensures Parent(Left(k)) == k && Parent(Right(k)) == k
  {
  }

  /** a lies on the path from k up to the root (k itself included). */
  ghost predicate OnPathToRoot(a: nat, k: nat)
    decreases k
  {
    a == k || (0 < k && OnPathToRoot(a, Parent(k)))
  }

  /** The path from k to the root continues through the parent of any
      non-root index on it. */
  lemma {:induction false} PathContinues(a: nat, k: nat)
    requires OnPathToRoot(a, k) && 0 < a
    ensures OnPathToRoot(Parent(a), k)
    decreases k
  {
    if a != k {
      PathContinues(a, Parent(k));
    }
  }

  /** t agrees with s everywhere outside the subtree rooted at start. */
  ghost predicate SameOutsideSubtree<T>(s: seq<Entry<T>>, t: seq<Entry<T>>, start: nat) {
    |t| == |s| && forall i :: 0 <= i < |s| && !OnPathToRoot(start, i) ==> t[i] == s[i]
  }

  /** Swapping k, in the subtree below start, with its child c stays inside
      that subtree. */
  lemma SwapInSubtree<T>(s: seq<Entry<T>>, t: seq<Entry<T>>, start: nat, k: nat, c: nat)
    requires SameOutsideSubtree(s, t, start) && OnPathToRoot(start, k)
    requires c < |t| && k < |t| && (c == Left(k) || c == Right(k))
    ensures OnPathToRoot(start, c)
    ensures SameOutsideSubtree(s, Swap(t, c, k), start)
  {
    ParentOfChildren(k);
  }

  // ---------------------------------------------------------------------
  // The heap property and its partial forms
  // ---------------------------------------------------------------------

  /** The edge from k down to index c is in order, or c is past the end. */
  ghost predicate Ordered<T>(s: seq<Entry<T>>, k: nat, c: nat)
    requires k < |s|
  {
    c < |s| ==> s[k].priority <= s[c].priority
  }

  /** Every entry's priority is at most its children's. */
  ghost predicate IsHeap<T>(s: seq<Entry<T>>) {
    forall k :: 0 <= k < |s| ==> Ordered(s, k, Left(k)) && Ordered(s, k, Right(k))
  }

  /** The parent of x (if any) is no greater than the children of x. */
  ghost predicate ParentBelowGrandchildren<T>(s: seq<Entry<T>>, x: nat) {
    0 < x < |s| ==> Ordered(s, Parent(x), Left(x)) && Ordered(s, Parent(x), Right(x))
  }

  /** The state during bubble-up: every edge is in order except the one
      from the parent of x down to x, and the parent of x may stand in for
      x above x's children. */
  ghost predicate HeapExceptUp<T>(s: seq<Entry<T>>, x: nat) {
    (forall k :: 0 <= k < |s| ==>
       (Left(k) != x ==> Ordered(s, k, Left(k))) && (Right(k) != x ==> Ordered(s, k, Right(k)))) &&
    ParentBelowGrandchildren(s, x)
  }

  /** The state during bubble-down: every edge is in order except the ones
      from x down to its children, and the parent of x is no greater than
      those children. */
  ghost predicate HeapExceptDown<T>(s: seq<Entry<T>>, x: nat) {
    (forall k :: 0 <= k < |s| && k != x ==> Ordered(s, k, Left(k)) && Ordered(s, k, Right(k))) &&
    ParentBelowGrandchildren(s, x)
  }

  /** The child that bubble-down compares k against: the right child if it
      exists and has strictly smaller priority, otherwise the left one. */
  function SmallerChild<T>(s: seq<Entry<T>>, k: nat): (c: nat)
    requires Left(k) < |s|
    ensures c < |s| && (c == Left(k) || c == Right(k))
    ensures s[c].priority <= s[Left(k)].priority
    ensures Right(k) < |s| ==> s[c].priority <= s[Right(k)].priority
    ensures c == Right(k) ==> s[Right(k)].priority < s[Left(k)].priority
  {
    if Right(k) < |s| && s[Right(k)].priority < s[Left(k)].priority then Right(k) else Left(k)
  }

  /** p is a lower bound of every priority stored in s. */
  ghost predicate IsMinimum<T>(p: int, s: seq<Entry<T>>) {
    forall i :: 0 <= i < |s| ==> p <= s[i].priority
  }

  /** Exchange the entries at i and j, as the three-assignment swap with a
      temporary does. */
  function Swap<T>(s: seq<Entry<T>>, i: nat, j: nat): (t: seq<Entry<T>>)
    requires i < |s| && j < |s|
    ensures |t| == |s| && multiset(t) == multiset(s)
    ensures t[i] == s[j] && t[j] == s[i]
    ensures forall m :: 0 <= m < |s| && m != i && m != j ==> t[m] == s[m]
  {
    s[i := s[j]][j := s[i]]
  }

  // ---------------------------------------------------------------------
  // What each public operation promises, shared by MinHeap and PriorityQueue
  // ---------------------------------------------------------------------

  /** peek on heap s returns r: None exactly when s is empty, otherwise the
      root, which holds the least priority. */
  ghost predicate PeekOutcome<T>(s: seq<Entry<T>>, r: Option<Entry<T>>) {
    match r
    case None => s == []
    case Some(e) => s != [] && e == s[0] && IsMinimum(e.priority, s)
  }

  /** add of e turns heap s into heap s2: one more entry, e among them,
      nothing else lost or gained, and the heap property restored. */
  ghost predicate AddOutcome<T>(s: seq<Entry<T>>, s2: seq<Entry<T>>, e: Entry<T>) {
    |s2| == |s| + 1 &&
    multiset(s2) == multiset(s) + multiset{e} &&
    IsHeap(s2)
  }

  /** pop_min turns heap s into s2 and returns r: on an empty heap None and
      no change; otherwise the old root, a least priority, is removed, the
      remaining entries are the old ones minus it, all of them are at least
      its priority, and they form a heap again. */
  ghost predicate PopOutcome<T>(s: seq<Entry<T>>, s2: seq<Entry<T>>, r: Option<Entry<T>>) {
    match r
    case None => s == [] && s2 == s
    case Some(e) =>
      s != [] && e == s[0] && IsMinimum(e.priority, s) &&
      |s2| == |s| - 1 &&
      multiset(s2) + multiset{e} == multiset(s) &&
      IsMinimum(e.priority, s2) &&
      IsHeap(s2)
  }

  // ---------------------------------------------------------------------
  // Lemmas
  // ---------------------------------------------------------------------

  /** The heap property in parent form: every non-root entry's
      priority is at least that of its parent (i-1)/2. */
  lemma HeapIffParentBelow<T>(s: seq<Entry<T>>)
    ensures IsHeap(s) <==> forall i :: 0 < i < |s| ==> s[Parent(i)].priority <= s[i].priority
  {
    if IsHeap(s) {
      forall i | 0 < i < |s| ensures s[Parent(i)].priority <= s[i].priority {
        var p := Parent(i);
        assert Ordered(s, p, Left(p)) && Ordered(s, p, Right(p));
      }
    }
    if forall i :: 0 < i < |s| ==> s[Parent(i)].priority <= s[i].priority {
      forall k | 0 <= k < |s| ensures Ordered(s, k, Left(k)) && Ordered(s, k, Right(k)) {
        ParentOfChildren(k);
        if Left(k) < |s| {
          assert s[Parent(Left(k))].priority <= s[Left(k)].priority;
        }
        if Right(k) < |s| {
          assert s[Parent(Right(k))].priority <= s[Right(k)].priority;
        }
      }
    }
  }

  /** In a heap, the priority on the parent edge into i is in order. */
  lemma ParentBelow<T>(s: seq<Entry<T>>, i: nat)
    requires IsHeap(s) && 0 < i < |s|
    ensures s[Parent(i)].priority <= s[i].priority
  {
    var p := Parent(i);
    assert Ordered(s, p, Left(p)) && Ordered(s, p, Right(p));
  }

  /** In a heap, the root's priority is at most the priority at j. */
  lemma {:induction false} RootBelow<T>(s: seq<Entry<T>>, j: nat)
    requires IsHeap(s) && j < |s|
    ensures s[0].priority <= s[j].priority
    decreases j
  {
    if j > 0 {
      ParentBelow(s, j);
      RootBelow(s, Parent(j));
    }
  }

  /** The root of a non-empty heap carries a least priority. */
  lemma RootIsMinimum<T>(s: seq<Entry<T>>)
    requires IsHeap(s) && s != []
    ensures IsMinimum(s[0].priority, s)
  {
    forall j | 0 <= j < |s| ensures s[0].priority <= s[j].priority {
      RootBelow(s, j);
    }
  }

  /** A lower bound of every entry of s bounds every entry drawn from s. */
  lemma MinimumOfSubMultiset<T>(p: int, s: seq<Entry<T>>, t: seq<Entry<T>>)
    requires IsMinimum(p, s) && multiset(t) <= multiset(s)
    ensures IsMinimum(p, t)
  {
    forall i | 0 <= i < |t| ensures p <= t[i].priority {
      assert t[i] in multiset(t);
      assert t[i] in s;
    }
  }

  /** A lower bound of every entry of s bounds each member of multiset(s). */
  lemma MinimumOfMember<T>(p: int, s: seq<Entry<T>>, e: Entry<T>)
    requires IsMinimum(p, s) && e in multiset(s)
    ensures p <= e.priority
  {
    assert e in s;
    var i :| 0 <= i < |s| && s[i] == e;
  }

  /** Appending to a heap leaves only the edge above the new entry to fix. */
  lemma AppendedHeap<T>(s: seq<Entry<T>>, e: Entry<T>)
    requires IsHeap(s)
    ensures HeapExceptUp(s + [e], |s|)
  {
    var t := s + [e];
    forall k | 0 <= k < |t|
      ensures (Left(k) != |s| ==> Ordered(t, k, Left(k))) && (Right(k) != |s| ==> Ordered(t, k, Right(k)))
    {
      if k < |s| {
        assert Ordered(s, k, Left(k)) && Ordered(s, k, Right(k));
      }
    }
  }

  /** One bubble-up swap moves the single faulty edge one level up. */
  lemma SwapUpStep<T>(s: seq<Entry<T>>, x: nat)
    requires 0 < x < |s| && HeapExceptUp(s, x)
    requires s[Parent(x)].priority > s[x].priority
    ensures HeapExceptUp(Swap(s, x, Parent(x)), Parent(x))
  {
    var p := Parent(x);
    var t := Swap(s, x, p);
    ParentOfChildren(p);
    forall k | 0 <= k < |t|
      ensures (Left(k) != p ==> Ordered(t, k, Left(k))) && (Right(k) != p ==> Ordered(t, k, Right(k)))
    {
      assert (Left(k) != x ==> Ordered(s, k, Left(k))) && (Right(k) != x ==> Ordered(s, k, Right(k)));
      if k == p {
        assert Ordered(s, p, Left(p)) || Ordered(s, p, Right(p));
      } else if k == x {
      } else if Left(k) == p || Right(k) == p {
      } else {
        assert t[k] == s[k];
        assert Left(k) < |s| ==> t[Left(k)] == s[Left(k)];
        assert Right(k) < |s| ==> t[Right(k)] == s[Right(k)];
      }
    }
    if 0 < p {
      ParentOfChildren(Parent(p));
      var g := Parent(p);
      assert (Left(g) != x ==> Ordered(s, g, Left(g))) && (Right(g) != x ==> Ordered(s, g, Right(g)));
      assert (Left(p) != x ==> Ordered(s, p, Left(p))) && (Right(p) != x ==> Ordered(s, p, Right(p)));
    }
  }

  /** Bubble-up may stop at the root or once the parent is no greater. */
  lemma UpSettled<T>(s: seq<Entry<T>>, x: nat)
    requires x < |s| && HeapExceptUp(s, x)
    requires x == 0 || s[Parent(x)].priority <= s[x].priority
    ensures IsHeap(s)
  {
    forall k | 0 <= k < |s| ensures Ordered(s, k, Left(k)) && Ordered(s, k, Right(k)) {
      ParentOfChildren(k);
    }
  }

  /** Taking the last entry out and putting it at the root of a heap leaves
      only the edges below the root to fix. */
  lemma RootReplacedHeap<T>(s: seq<Entry<T>>)
    requires IsHeap(s) && |s| > 1
    ensures HeapExceptDown(s[0 := s[|s| - 1]][..|s| - 1], 0)
  {
    var t := s[0 := s[|s| - 1]][..|s| - 1];
    forall k | 0 <= k < |t| && k != 0 ensures Ordered(t, k, Left(k)) && Ordered(t, k, Right(k)) {
      assert Ordered(s, k, Left(k)) && Ordered(s, k, Right(k));
    }
  }

  /** One bubble-down swap of x with its smaller child moves the faulty
      edges one level down. */
  lemma SwapDownStep<T>(s: seq<Entry<T>>, x: nat)
    requires HeapExceptDown(s, x) && Left(x) < |s|
    requires s[x].priority > s[SmallerChild(s, x)].priority
    ensures HeapExceptDown(Swap(s, SmallerChild(s, x), x), SmallerChild(s, x))
  {
    var c := SmallerChild(s, x);
    ParentOfChildren(x);
    var t := Swap(s, c, x);
    forall k | 0 <= k < |t| && k != c ensures Ordered(t, k, Left(k)) && Ordered(t, k, Right(k)) {
      if k == x {
      } else if 0 < x && k == Parent(x) {
        assert Ordered(s, k, Left(k)) && Ordered(s, k, Right(k));
      } else {
        assert Ordered(s, k, Left(k)) && Ordered(s, k, Right(k));
        assert t[k] == s[k];
        assert Left(k) < |s| ==> t[Left(k)] == s[Left(k)];
        assert Right(k) < |s| ==> t[Right(k)] == s[Right(k)];
      }
    }
    assert Ordered(s, c, Left(c)) && Ordered(s, c, Right(c));
  }

  /** Bubble-down may stop at a leaf, or once x is no greater than its
      smaller child. */
  lemma DownSettled<T>(s: seq<Entry<T>>, x: nat)
    requires HeapExceptDown(s, x)
    requires Left(x) < |s| ==> s[x].priority <= s[SmallerChild(s, x)].priority
    ensures IsHeap(s)
  {
  }

  /** Successive pops from any heap yield non-decreasing priorities, and the
      popped entries together with what is left are exactly what was there. */
  lemma {:induction false} PopsAreSorted<T>(hs: seq<seq<Entry<T>>>, rs: seq<Entry<T>>)
    requires |hs| == |rs| + 1
    requires forall k :: 0 <= k < |rs| ==> PopOutcome(hs[k], hs[k + 1], Some(rs[k]))
    ensures forall k :: 0 < k < |rs| ==> rs[k - 1].priority <= rs[k].priority
    ensures multiset(rs) + multiset(hs[|rs|]) == multiset(hs[0])
    ensures |hs[|rs|]| == |hs[0]| - |rs|
  {
    if rs != [] {
      var n := |rs| - 1;
      PopsAreSorted(hs[..n + 1], rs[..n]);
      assert PopOutcome(hs[n], hs[n + 1], Some(rs[n]));
      assert rs == rs[..n] + [rs[n]];
      forall k | 0 < k < |rs| ensures rs[k - 1].priority <= rs[k].priority {
        assert PopOutcome(hs[k - 1], hs[k], Some(rs[k - 1]));
        assert PopOutcome(hs[k], hs[k + 1], Some(rs[k]));
      }
    }
  }

  /** Whatever heap s holds the entries m, a pop from it hands out a
      least-priority member of m and leaves the rest. */
  lemma PopFrom<T>(s: seq<Entry<T>>, s2: seq<Entry<T>>, r: Option<Entry<T>>, m: multiset<Entry<T>>)
    requires PopOutcome(s, s2, r) && multiset(s) == m
    ensures r == None <==> m == multiset{}
    ensures r.Some? ==> r.value in m && multiset(s2) == m - multiset{r.value}
    ensures r.Some? ==> forall f :: f in m ==> r.value.priority <= f.priority
  {
    if r.Some? {
      assert s[0] in multiset(s);
      forall f | f in m ensures r.value.priority <= f.priority {
        MinimumOfMember(r.value.priority, s, f);
      }
    } else {
      assert s == [];
    }
    if m == multiset{} {
      assert |s| == 0;
    }
  }

  /** Likewise, peek shows a least-priority member of m. */
  lemma PeekFrom<T>(s: seq<Entry<T>>, r: Option<Entry<T>>, m: multiset<Entry<T>>)
    requires PeekOutcome(s, r) && multiset(s) == m
    ensures r == None <==> m == multiset{}
    ensures r.Some? ==> r.value in m && forall f :: f in m ==> r.value.priority <= f.priority
  {
    if r.Some? {
      assert s[0] in multiset(s);
      forall f | f in m ensures r.value.priority <= f.priority {
        MinimumOfMember(r.value.priority, s, f);
      }
    }
    if m == multiset{} {
      assert |s| == 0;
    }
  }

  // ---------------------------------------------------------------------
  // The heap itself
  // ---------------------------------------------------------------------

  class MinHeap<T> {
    /** The stored entries, in tree order. */
    var data: seq<Entry<T>>

    ghost predicate Valid()
      reads this
    {
      IsHeap(data)
    }

    constructor ()
      ensures Valid() && data == []
    {
      data := [];
    }

    /** The number of stored entries (Python's `__len__`). */
    method Size() returns (n: nat)
      ensures n == |data|
    {
      n := |data|;
    }

    method IsEmpty() returns (empty: bool)
      ensures empty <==> |data| == 0
    {
      empty := |data| == 0;
    }

    /** The least-priority entry, left in place; None on an empty heap. */
    method Peek() returns (r: Option<Entry<T>>)
      requires Valid()
      ensures PeekOutcome(data, r)
    {
      var empty := IsEmpty();
      if empty {
        return None;
      }
      RootIsMinimum(data);
      return Some(data[0]);
    }

    /** Append (priority, item) and bubble it up into place. */
    method Add(priority: int, item: T)
      requires Valid()
      modifies this
      ensures Valid()
      ensures AddOutcome(old(data), data, Entry(priority, item))
    {
      AppendedHeap(data, Entry(priority, item));
      data := data + [Entry(priority, item)];
      BubbleUp(|data| - 1);
    }

    /** Remove and return the least-priority entry; None on an empty heap. */
    method PopMin() returns (r: Option<Entry<T>>)
      requires Valid()
      modifies this
      ensures Valid()
      ensures PopOutcome(old(data), data, r)
    {
      var empty := IsEmpty();
      if empty {
        return None;
      }
      ghost var before := data;
      RootIsMinimum(before);
      if |data| > 1 {
        RootReplacedHeap(data);
      }

      var last := |data| - 1;
      Exchange(0, last);

      var minimum := data[last];
      assert data == data[..last] + [minimum];
      data := data[..last];
      assert multiset(data) + multiset{minimum} == multiset(before);
      assert IsMinimum(minimum.priority, data) by {
        MinimumOfSubMultiset(minimum.priority, before, data);
      }

      empty := IsEmpty();
      if !empty {
        ghost var mid := data;
        BubbleDown(0);
        MinimumOfSubMultiset(minimum.priority, mid, data);
      }
      return Some(minimum);
    }

    /** Exchange two stored entries with the three-assignment swap
        through a temporary. */
    method Exchange(i: nat, j: nat)
      requires i < |data| && j < |data|
      modifies this
      ensures data == Swap(old(data), i, j)
    {
      var temp := data[i];
      data := data[i := data[j]];
      data := data[j := temp];
    }

    /** Swap the entry at start with its parent while the parent's priority
        is strictly greater; stop at the root. */
    method BubbleUp(start: nat)
      requires start < |data| && HeapExceptUp(data, start)
      modifies this
      ensures IsHeap(data)
      ensures |data| == |old(data)| && multiset(data) == multiset(old(data))
      ensures forall i :: 0 <= i < |data| && !OnPathToRoot(i, start) ==> data[i] == old(data)[i]
      ensures if 0 < start && old(data)[start].priority < old(data)[Parent(start)].priority
              then data[start] == old(data)[Parent(start)]
              else data == old(data)
    {
      var idx: int := start;
      var parent := (idx - 1) / 2;
      while idx > 0 && data[parent].priority > data[idx].priority
        invariant 0 <= idx < |data|
        invariant parent == (idx - 1) / 2
        invariant HeapExceptUp(data, idx)
        invariant |data| == |old(data)| && multiset(data) == multiset(old(data))
        invariant OnPathToRoot(idx, start)
        invariant forall i :: 0 <= i < |data| && !OnPathToRoot(i, start) ==> data[i] == old(data)[i]
        invariant idx <= start
        invariant idx == start ==> data == old(data)
        invariant idx < start ==> 0 < start && old(data)[start].priority < old(data)[Parent(start)].priority
        invariant idx < start ==> data[start] == old(data)[Parent(start)]
        decreases idx
      {
        SwapUpStep(data, idx);
        PathContinues(idx, start);
        Exchange(idx, parent);
        idx := parent;
        parent := (idx - 1) / 2;
      }
      UpSettled(data, idx);
    }

    /** Swap the entry at start with its smaller child (the left one on a
        tie) while it is strictly greater; stop at a leaf. */
    method BubbleDown(start: nat)
      requires HeapExceptDown(data, start)
      modifies this
      ensures IsHeap(data)
      ensures |data| == |old(data)| && multiset(data) == multiset(old(data))
      ensures SameOutsideSubtree(old(data), data, start)
      ensures if Left(start) < |data| && old(data)[SmallerChild(old(data), start)].priority < old(data)[start].priority
              then data[start] == old(data)[SmallerChild(old(data), start)]
              else data == old(data)
    {
      var idx := start;
      var n := |data|;
      while true
        invariant n == |data| && multiset(data) == multiset(old(data))
        invariant HeapExceptDown(data, idx)
        invariant OnPathToRoot(start, idx)
        invariant SameOutsideSubtree(old(data), data, start)
        invariant start <= idx
        invariant idx == start ==> data == old(data)
        invariant start < idx ==> Left(start) < n
        invariant start < idx ==> old(data)[SmallerChild(old(data), start)].priority < old(data)[start].priority
        invariant start < idx ==> data[start] == old(data)[SmallerChild(old(data), start)]
        decreases n - idx
      {
        var left := 2 * idx + 1;
        var right := 2 * idx + 2;
        assert left == Left(idx) && right == Right(idx);

        if left >= n {
          DownSettled(data, idx);
          break;
        }

        var smaller := left;
        if right < n && data[right].priority < data[left].priority {
          smaller := right;
        }
        assert smaller == SmallerChild(data, idx);

        if data[idx].priority <= data[smaller].priority {
          DownSettled(data, idx);
          break;
        }

        SwapDownStep(data, idx);
        SwapInSubtree(old(data), data, start, idx, smaller);
        Exchange(smaller, idx);

        idx := smaller;
      }
    }
  }
}
