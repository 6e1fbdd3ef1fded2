/** What the operations of the octree model guarantee: where payloads go,
    that none is lost or duplicated, how queries and enumeration see them, and
    where the source departs from an idealised octree. */
module OctreeProperties {
  import opened Geometry
  import opened OctreeModel

  // ---------------------------------------------------- capacity tuning

  /** Tuning keeps a capacity that is already within [4, 20] within it. */
  lemma AdjustStaysInRange(capacity: int, frameRate: real)
    requires MinCapacity <= capacity <= MaxCapacity
    ensures MinCapacity <= AdjustedCapacity(capacity, frameRate) <= MaxCapacity
  {
  }

  /** Tuning never makes a positive capacity zero or negative. */
  lemma AdjustKeepsPositive(capacity: int, frameRate: real)
    requires capacity >= 1
    ensures AdjustedCapacity(capacity, frameRate) >= 1
  {
  }

  // ---------------------------------------------------------- children

  /** The children Subdivide builds: child `i` is an empty leaf of half the
      size and the parent's capacity, centred at ChildOffset(i) from the
      parent's centre. */
  lemma SubdivideChildren<T>(n: Node<T>)
    ensures forall i :: 0 <= i < 8 ==>
      Subdivide(n).children[i] == Leaf(n.center.Add(ChildOffset(n.size.Halve(), i)), n.size.Halve(), n.capacity)
  {
    var r := Subdivide(n);
    var h := n.size.Halve();
    forall i | 0 <= i < 8
      ensures r.children[i] == Leaf(n.center.Add(ChildOffset(h, i)), h, n.capacity)
    {
      if i == 0 {} else if i == 1 {} else if i == 2 {} else if i == 3 {}
      else if i == 4 {} else if i == 5 {} else if i == 6 {} else {}
    }
  }

  /** Child `i` with bits 2 and 4 exchanged: the child index GetChildIndex
      gives for the centre of the child Subdivide puts in slot `i`. */
  function SwapYZBits(i: int): int
    requires 0 <= i < 8
  {
    i % 2 + 4 * ((i / 2) % 2) + 2 * (i / 4)
  }

  /** For a node of positive size, GetChildIndex sends the centre of the
      child in slot `i` to slot SwapYZBits(i): the two layouts agree only on
      slots 0, 1, 6 and 7. */
  lemma SubdivideOrderDiffersFromChildIndex<T>(n: Node<T>)
    requires n.size.x > 0.0 && n.size.y > 0.0 && n.size.z > 0.0
    ensures forall i :: 0 <= i < 8 ==>
      ChildIndex(n.center, Subdivide(n).children[i].center) == SwapYZBits(i)
    ensures ChildIndex(n.center, Subdivide(n).children[2].center) == 4
    ensures ChildIndex(n.center, Subdivide(n).children[4].center) == 2
  {
    SubdivideChildren(n);
    var h := n.size.Halve();
    forall i | 0 <= i < 8
      ensures ChildIndex(n.center, n.center.Add(ChildOffset(h, i))) == SwapYZBits(i)
    {
      if i == 0 {} else if i == 1 {} else if i == 2 {} else if i == 3 {}
      else if i == 4 {} else if i == 5 {} else if i == 6 {} else {}
    }
  }

  /** For a node of positive size the child regions do not tile the parent:
      each child is centred half the parent's size away with a quarter of it
      as half-extent, so it pokes out of the parent's region and leaves the
      parent's centre uncovered. */
  lemma ChildRegionsLeaveParent<T>(n: Node<T>)
    requires n.size.x > 0.0 && n.size.y > 0.0 && n.size.z > 0.0
    ensures forall i :: 0 <= i < 8 ==>
      var c := Subdivide(n).children[i];
      && !Within(Bounds(c.center, c.size), Bounds(n.center, n.size))
      && !HasPoint(Bounds(c.center, c.size), n.center)
  {
    SubdivideChildren(n);
  }

  // ------------------------------------------------------ payload sums

  lemma Cancel<T>(a: multiset<T>, b: multiset<T>, c: multiset<T>)
    requires a + c == b + c
    ensures a == b
  {
    forall x ensures a[x] == b[x] {
      assert (a + c)[x] == (b + c)[x];
    }
  }

  /** Two child sequences that agree on a prefix have the same payloads there. */
  lemma {:induction false} ChildPayloadsPrefix<T>(cs: seq<Node<T>>, ds: seq<Node<T>>, k: nat)
    requires k <= |cs| && k <= |ds|
    requires forall j :: 0 <= j < k ==> cs[j] == ds[j]
    ensures ChildPayloads(cs, k) == ChildPayloads(ds, k)
    decreases k
  {
    if k > 0 {
      ChildPayloadsPrefix(cs, ds, k - 1);
    }
  }

  /** Replacing child `i` changes the payloads of a prefix that holds it by
      exactly the difference between the old and the new child. */
  lemma {:induction false} ChildPayloadsUpdate<T>(cs: seq<Node<T>>, k: nat, i: int, c: Node<T>)
    requires 0 <= i < k <= |cs|
    ensures ChildPayloads(cs[i := c], k) + Payloads(cs[i]) == ChildPayloads(cs, k) + Payloads(c)
    decreases k
  {
    var cs' := cs[i := c];
    var x := ChildPayloads(cs', k - 1);
    var y := ChildPayloads(cs, k - 1);
    if i == k - 1 {
      ChildPayloadsPrefix(cs', cs, k - 1);
      assert ChildPayloads(cs', k) == y + Payloads(c);
      assert ChildPayloads(cs, k) == y + Payloads(cs[i]);
    } else {
      ChildPayloadsUpdate(cs, k - 1, i, c);
      assert cs'[k - 1] == cs[k - 1];
      var z := Payloads(cs[k - 1]);
      assert ChildPayloads(cs', k) == x + z;
      assert ChildPayloads(cs, k) == y + z;
      assert x + Payloads(cs[i]) == y + Payloads(c);
      assert (x + z) + Payloads(cs[i]) == (x + Payloads(cs[i])) + z;
      assert (y + z) + Payloads(c) == (y + Payloads(c)) + z;
    }
  }

  /** Nodes with no payload and no children hold nothing. */
  lemma {:induction false} EmptyLeavesHoldNothing<T>(cs: seq<Node<T>>, k: nat)
    requires k <= |cs|
    requires forall i :: 0 <= i < |cs| ==> cs[i].data == [] && cs[i].children == []
    ensures ChildPayloads(cs, k) == multiset{}
    decreases k
  {
    if k > 0 {
      assert Payloads(cs[k - 1]) == multiset{};
      EmptyLeavesHoldNothing(cs, k - 1);
    }
  }

  /** Replacing one child of a node changes the node's payloads by exactly
      the difference between the old and the new child. */
  lemma ReplaceChild<T>(n: Node<T>, i: int, c: Node<T>)
    requires 0 <= i < |n.children|
    ensures Payloads(n.(children := n.children[i := c])) + Payloads(n.children[i])
         == Payloads(n) + Payloads(c)
  {
    var cs := n.children;
    ChildPayloadsUpdate(cs, |cs|, i, c);
    var x := ChildPayloads(cs[i := c], |cs|);
    var y := ChildPayloads(cs, |cs|);
    assert Payloads(n.(children := cs[i := c])) == multiset(n.data) + x;
    assert Payloads(n) == multiset(n.data) + y;
    assert (multiset(n.data) + x) + Payloads(cs[i]) == multiset(n.data) + (x + Payloads(cs[i]));
    assert (multiset(n.data) + y) + Payloads(c) == multiset(n.data) + (y + Payloads(c));
  }

  /** After Subdivide the node holds its own list and nothing else: the new
      children are empty, and whatever the old children held is gone. */
  lemma SubdivideHoldsOwnList<T>(n: Node<T>)
    ensures Payloads(Subdivide(n)) == multiset(n.data)
  {
    var m := Subdivide(n);
    SubdivideChildren(n);
    EmptyLeavesHoldNothing(m.children, 8);
    assert Payloads(m) == multiset(n.data) + ChildPayloads(m.children, 8);
  }

  /** So Subdivide on a node that already has payloads below it, which the
      public Subdivide allows, loses them. */
  lemma SubdivideDropsDescendants<T>(n: Node<T>)
    requires ChildPayloads(n.children, |n.children|) != multiset{}
    ensures Payloads(Subdivide(n)) != Payloads(n)
  {
    SubdivideHoldsOwnList(n);
    var own, below := multiset(n.data), ChildPayloads(n.children, |n.children|);
    assert Payloads(n) == own + below;
    var x :| x in below;
    assert (own + below)[x] == own[x] + below[x] > own[x];
  }

  /** Subdividing a leaf, the step Insert takes on a full leaf, keeps exactly
      the payloads the leaf held. */
  lemma SubdividePayloads<T>(n: Node<T>)
    requires WellFormed(n)
    ensures Payloads(EnsureSubdivided(n)) == Payloads(n)
  {
    if !n.isSubdivided {
      SubdivideHoldsOwnList(n);
    }
  }

  // --------------------------------------------------------------- insert

  /** A leaf with room appends the payload at the end of its list and
      changes nothing else. */
  lemma InsertIntoLeafWithRoom<T>(n: Node<T>, p: Vec3, d: T)
    requires WellFormed(n) && !n.isSubdivided && |n.data| < n.capacity
    ensures Insert(n, p, d) == n.(data := n.data + [d])
  {
  }

  /** Any other node ends up subdivided with its own list unchanged, with
      exactly one more payload in the child GetChildIndex picks, and with the
      other children as they were (or as Subdivide made them). */
  lemma InsertRoutesToChild<T>(n: Node<T>, p: Vec3, d: T)
    requires WellFormed(n) && (n.isSubdivided || |n.data| >= n.capacity)
    ensures var r := Insert(n, p, d);
      var m := EnsureSubdivided(n);
      var i := ChildIndex(n.center, p);
      && r.isSubdivided && r.data == n.data && |r.children| == 8
      && (forall j :: 0 <= j < 8 && j != i ==> r.children[j] == m.children[j])
      && r.children[i] == Insert(m.children[i], p, d)
      && Payloads(r.children[i]) == Payloads(m.children[i]) + multiset{d}
  {
    var m := EnsureSubdivided(n);
    InsertPayloads(m.children[ChildIndex(n.center, p)], p, d);
  }

  /** Insert adds exactly the one payload to the subtree. */
  lemma {:induction false} InsertPayloads<T>(n: Node<T>, p: Vec3, d: T)
    requires WellFormed(n)
    ensures Payloads(Insert(n, p, d)) == Payloads(n) + multiset{d}
    ensures |Payloads(Insert(n, p, d))| == |Payloads(n)| + 1
    decreases Height(n), if IsFullLeaf(n) then 1 else 0
  {
    if !n.isSubdivided && |n.data| < n.capacity {
      assert n.children == [];
      assert Insert(n, p, d).children == [];
    } else {
      var m := EnsureSubdivided(n);
      SubdividePayloads(n);
      var i := ChildIndex(n.center, p);
      var c := m.children[i];
      assert n.isSubdivided ==> Height(c) < Height(n);
      InsertPayloads(c, p, d);
      var c' := Insert(c, p, d);
      assert Insert(n, p, d) == m.(children := m.children[i := c']);
      ReplaceChild(m, i, c');
      var r := Payloads(Insert(n, p, d));
      assert r + Payloads(c) == (Payloads(n) + multiset{d}) + Payloads(c);
      Cancel(r, Payloads(n) + multiset{d}, Payloads(c));
    }
  }

  // --------------------------------------------------------------- remove

  /** The index of the first element equal to `d`. */
  function FirstIndex<T(==)>(s: seq<T>, d: T): (k: nat)
    requires d in s
    ensures k < |s| && s[k] == d && d !in s[..k]
  {
    if s[0] == d then 0 else 1 + FirstIndex(s[1..], d)
  }

  /** RemoveFirst takes out exactly the first occurrence. */
  lemma RemoveFirstAt<T>(s: seq<T>, d: T)
    requires d in s
    ensures RemoveFirst(s, d) == s[..FirstIndex(s, d)] + s[FirstIndex(s, d) + 1..]
    ensures multiset(RemoveFirst(s, d)) + multiset{d} == multiset(s)
  {
    var k := FirstIndex(s, d);
    RemoveFirstSplit(s, d, k);
    RemoveFirstCount(s, d, k);
  }

  /** Removing the first `d`, which sits at `k`, joins the two sides of `k`. */
  lemma {:induction false} RemoveFirstSplit<T>(s: seq<T>, d: T, k: nat)
    requires k < |s| && s[k] == d && d !in s[..k]
    ensures RemoveFirst(s, d) == s[..k] + s[k + 1..]
    decreases k
  {
    if k > 0 {
      var t := s[1..];
      assert s[0] == s[..k][0];
      assert t[..k - 1] == s[1..k];
      RemoveFirstSplit(t, d, k - 1);
      assert s[..k] == [s[0]] + t[..k - 1];
      assert s[k + 1..] == t[k..];
    }
  }

  /** ... so the list's multiset loses exactly the one copy at `k`. */
  lemma {:induction false} RemoveFirstCount<T>(s: seq<T>, d: T, k: nat)
    requires k < |s| && s[k] == d && d !in s[..k]
    ensures multiset(RemoveFirst(s, d)) + multiset{d} == multiset(s)
  {
    RemoveFirstSplit(s, d, k);
    assert s == s[..k] + [d] + s[k + 1..];
  }

  /** On a leaf, Remove succeeds exactly when the payload is in the list,
      and then takes out its first occurrence only. */
  lemma RemoveFromLeaf<T>(n: Node<T>, p: Vec3, d: T)
    requires WellFormed(n) && !n.isSubdivided
    ensures Remove(n, p, d).1 <==> d in n.data
    ensures Remove(n, p, d).0 == n.(data := RemoveFirst(n.data, d))
  {
  }

  /** Merging drops only empty leaves, so it keeps every payload. */
  lemma TryMergePayloads<T>(n: Node<T>)
    requires WellFormed(n)
    ensures Payloads(TryMerge(n).0) == Payloads(n)
  {
    if TryMerge(n).1 {
      assert forall i :: 0 <= i < 8 ==> WellFormed(n.children[i]) && n.children[i].children == [];
      EmptyLeavesHoldNothing(n.children, 8);
    }
  }

  /** A successful Remove takes away exactly one copy of the payload; a
      payload stored nowhere in the subtree makes it fail. */
  lemma {:induction false} RemovePayloads<T>(n: Node<T>, p: Vec3, d: T)
    requires WellFormed(n)
    ensures Remove(n, p, d).1 ==> Payloads(Remove(n, p, d).0) + multiset{d} == Payloads(n)
    ensures d !in Payloads(n) ==> !Remove(n, p, d).1
    decreases n
  {
    if n.isSubdivided {
      var i := ChildIndex(n.center, p);
      var (c, removed) := Remove(n.children[i], p, d);
      RemovePayloads(n.children[i], p, d);
      if removed {
        var m := n.(children := n.children[i := c]);
        ReplaceChild(n, i, c);
        assert (Payloads(m) + multiset{d}) + Payloads(c) == Payloads(n) + Payloads(c);
        Cancel(Payloads(m) + multiset{d}, Payloads(n), Payloads(c));
        TryMergePayloads(m);
        assert Remove(n, p, d).0 == TryMerge(m).0;
      }
    } else if d in n.data {
      RemoveFirstAt(n.data, d);
      assert Remove(n, p, d).0.children == [];
    }
  }

  /** On a subdivided node Remove only looks in the child GetChildIndex
      picks, never in the node's own list nor in the other children; it
      succeeds exactly when that child's removal does, and after a success
      the node merges exactly when its children are then all empty leaves. */
  lemma RemoveFollowsChildIndex<T>(n: Node<T>, p: Vec3, d: T)
    requires WellFormed(n) && n.isSubdivided
    ensures var i := ChildIndex(n.center, p);
      Remove(n, p, d).1 == Remove(n.children[i], p, d).1
    ensures var i := ChildIndex(n.center, p); var c := Remove(n.children[i], p, d);
      Remove(n, p, d).1 ==> Remove(n, p, d).0 == TryMerge(n.(children := n.children[i := c.0])).0
    ensures var i := ChildIndex(n.center, p); var c := Remove(n.children[i], p, d);
      Remove(n, p, d).1 ==> (!Remove(n, p, d).0.isSubdivided <==> ChildrenEmptyLeaves(n.children[i := c.0]))
    ensures Remove(n, p, d).0.data == n.data
    ensures Remove(n, p, d).1 ==> d in Payloads(n.children[ChildIndex(n.center, p)])
    ensures var r := Remove(n, p, d);
      r.1 && r.0.isSubdivided ==>
        forall j :: 0 <= j < 8 && j != ChildIndex(n.center, p) ==> r.0.children[j] == n.children[j]
    ensures var r := Remove(n, p, d);
      r.1 && !r.0.isSubdivided ==> r.0 == n.(isSubdivided := false, children := [])
  {
    RemovePayloads(n.children[ChildIndex(n.center, p)], p, d);
  }

  /** Removing right after inserting, at the same point, always finds the
      payload, and leaves the same payloads as before the insert. */
  lemma {:induction false} RemoveAfterInsert<T>(n: Node<T>, p: Vec3, d: T)
    requires WellFormed(n)
    ensures Remove(Insert(n, p, d), p, d).1
    ensures Payloads(Remove(Insert(n, p, d), p, d).0) == Payloads(n)
    decreases Height(n), if IsFullLeaf(n) then 1 else 0
  {
    InsertPayloads(n, p, d);
    var r := Insert(n, p, d);
    if !n.isSubdivided && |n.data| < n.capacity {
      assert d in r.data;
    } else {
      var m := if n.isSubdivided then n else Subdivide(n);
      if !n.isSubdivided {
        SubdividePayloads(n);
        SubdivideChildren(n);
      }
      var i := ChildIndex(n.center, p);
      var c := m.children[i];
      assert n.isSubdivided ==> Height(c) < Height(n);
      RemoveAfterInsert(c, p, d);
      assert r.children[i] == Insert(c, p, d);
    }
    RemovePayloads(r, p, d);
    Cancel(Payloads(Remove(r, p, d).0), Payloads(n), multiset{d});
  }

  // ---------------------------------------------------------------- merge

  /** TryMerge succeeds exactly when the node is subdivided and all eight
      children are empty leaves; it then keeps the node's own list and
      leaves it a leaf, and otherwise changes nothing. */
  lemma TryMergeOutcome<T>(n: Node<T>)
    requires WellFormed(n)
    ensures TryMerge(n).1 <==> n.isSubdivided && ChildrenEmptyLeaves(n.children)
    ensures TryMerge(n).1 ==> TryMerge(n).0 == n.(isSubdivided := false, children := [])
    ensures !TryMerge(n).1 ==> TryMerge(n).0 == n
  {
  }

  /** A second TryMerge finds nothing to do. */
  lemma TryMergeIdempotent<T>(n: Node<T>)
    requires WellFormed(n)
    ensures TryMerge(TryMerge(n).0) == (TryMerge(n).0, false)
  {
  }

  // ----------------------------------------------------------------- grow

  /** Inserting a list of payloads one by one adds exactly that list. */
  lemma {:induction false} InsertAllPayloads<T>(n: Node<T>, ds: seq<T>, pos: T -> Vec3)
    requires WellFormed(n)
    ensures Payloads(InsertAll(n, ds, pos)) == Payloads(n) + multiset(ds)
    decreases |ds|
  {
    if ds != [] {
      var d, rest := ds[0], ds[1..];
      var n1 := Insert(n, pos(d), d);
      InsertPayloads(n, pos(d), d);
      InsertAllPayloads(n1, rest, pos);
      HeadSplit(ds);
      assert (Payloads(n) + multiset{d}) + multiset(rest) == Payloads(n) + (multiset{d} + multiset(rest));
    }
  }

  lemma HeadSplit<T>(ds: seq<T>)
    requires ds != []
    ensures multiset(ds) == multiset{ds[0]} + multiset(ds[1..])
  {
    assert ds == [ds[0]] + ds[1..];
  }

  /** Growing a leaf yields a node of twice the size, at GrowCenter, that
      stores exactly the leaf's payloads. */
  lemma GrowKeepsPayloads<T>(n: Node<T>, p: Vec3, pos: T -> Vec3)
    requires WellFormed(n) && !n.isSubdivided
    ensures Payloads(Grow(n, p, pos)) == Payloads(n) == multiset(n.data)
    ensures Grow(n, p, pos).size == n.size.Scale(2.0)
    ensures Grow(n, p, pos).center == GrowCenter(n.center, n.size, p)
  {
    var g: Node<T> := Leaf(GrowCenter(n.center, n.size, p), n.size.Scale(2.0), n.capacity);
    InsertAllPayloads(g, n.data, pos);
  }

  /** The growth loop keeps every payload, whichever way it ends. */
  lemma {:induction false} GrowUntilPayloads<T>(n: Node<T>, p: Vec3, pos: T -> Vec3, fuel: nat)
    requires WellFormed(n)
    ensures Payloads(GrowUntil(n, p, pos, fuel).tree) == Payloads(n)
    decreases fuel
  {
    if !HasPoint(Bounds(n.center, n.size), p) && !n.isSubdivided && fuel > 0 {
      GrowKeepsPayloads(n, p, pos);
      GrowUntilPayloads(Grow(n, p, pos), p, pos, fuel - 1);
    }
  }

  // --------------------------------------------------------------- update

  /** A batch that completes, or stops at a payload that was not where the
      caller said, keeps the payloads as they were; one that stops in the
      growth loop has lost exactly the payload it was moving. */
  lemma {:induction false} UpdateFromPayloads<T>(
    n: Node<T>, ms: seq<Movement<T>>, k: nat, pos: T -> Vec3, fuel: nat)
    requires WellFormed(n) && k <= |ms|
    ensures var r := UpdateFrom(n, ms, k, pos, fuel);
      (r.1.Done? || r.1.RemoveFailed?) ==> Payloads(r.0) == Payloads(n)
    ensures var r := UpdateFrom(n, ms, k, pos, fuel);
      (r.1.GrowOnSubdivided? || r.1.GrowthUnbounded?) ==>
        Payloads(r.0) + multiset{ms[r.1.index].data} == Payloads(n)
    decreases |ms| - k
  {
    if k < |ms| {
      var m := ms[k];
      var (n1, removed) := Remove(n, m.oldPoint, m.data);
      RemovePayloads(n, m.oldPoint, m.data);
      if removed {
        GrowUntilPayloads(n1, m.newPoint, pos, fuel);
        var g := GrowUntil(n1, m.newPoint, pos, fuel);
        if g.Covered? {
          InsertPayloads(g.tree, m.newPoint, m.data);
          UpdateFromPayloads(Insert(g.tree, m.newPoint, m.data), ms, k + 1, pos, fuel);
        }
      }
    }
  }

  lemma UpdatePayloads<T>(n: Node<T>, ms: seq<Movement<T>>, pos: T -> Vec3, fuel: nat)
    requires WellFormed(n)
    ensures Update(n, ms, pos, fuel).1.Done? ==> Payloads(Update(n, ms, pos, fuel).0) == Payloads(n)
  {
    UpdateFromPayloads(n, ms, 0, pos, fuel);
  }

  // ---------------------------------------------------------------- query

  /** The box holds every leaf centre and meets every node on the way. */
  ghost predicate Covers<T>(box: Aabb, n: Node<T>)
    decreases n
  {
    && Intersects(box, Bounds(n.center, n.size))
    && (n.isSubdivided ==> forall i :: 0 <= i < |n.children| ==> Covers(box, n.children[i]))
    && (!n.isSubdivided ==> HasPoint(box, n.center))
  }

  /** A leaf reports its whole list, in order, exactly when the list is not
      empty, the box meets the leaf's bounds and holds its centre. */
  lemma QueryLeaf<T>(n: Node<T>, box: Aabb)
    requires !n.isSubdivided
    ensures Query(n, box) ==
      if Intersects(box, Bounds(n.center, n.size)) && |n.data| > 0 && HasPoint(box, n.center)
      then n.data else []
  {
  }

  /** A query that misses a node's bounds reports nothing from it. */
  lemma QueryPrunes<T>(n: Node<T>, box: Aabb)
    requires !Intersects(box, Bounds(n.center, n.size))
    ensures Query(n, box) == []
  {
  }

  /** A subdivided node that the box meets reports its children's results
      in child order 0 to 7, and nothing of its own. */
  lemma QueryChildOrder<T>(n: Node<T>, box: Aabb)
    requires WellFormed(n) && n.isSubdivided && Intersects(box, Bounds(n.center, n.size))
    ensures var c := n.children;
      Query(n, box) == Query(c[0], box) + Query(c[1], box) + Query(c[2], box) + Query(c[3], box)
        + Query(c[4], box) + Query(c[5], box) + Query(c[6], box) + Query(c[7], box)
  {
    var c := n.children;
    assert QueryChildren(c, 1, box) == Query(c[0], box);
    assert QueryChildren(c, 2, box) == QueryChildren(c, 1, box) + Query(c[1], box);
    assert QueryChildren(c, 3, box) == QueryChildren(c, 2, box) + Query(c[2], box);
    assert QueryChildren(c, 4, box) == QueryChildren(c, 3, box) + Query(c[3], box);
    assert QueryChildren(c, 5, box) == QueryChildren(c, 4, box) + Query(c[4], box);
    assert QueryChildren(c, 6, box) == QueryChildren(c, 5, box) + Query(c[5], box);
    assert QueryChildren(c, 7, box) == QueryChildren(c, 6, box) + Query(c[6], box);
    assert QueryChildren(c, 8, box) == QueryChildren(c, 7, box) + Query(c[7], box);
  }

  /** Payloads held by leaves are among all the payloads of the subtree, and
      for a subdivided node among those of its children. */
  lemma {:induction false} LeafPayloadsWithin<T>(n: Node<T>)
    ensures LeafPayloads(n) <= Payloads(n)
    ensures n.isSubdivided ==> LeafPayloads(n) <= ChildPayloads(n.children, |n.children|)
    decreases n
  {
    ChildLeafPayloadsWithin(n.children, |n.children|);
  }

  lemma {:induction false} ChildLeafPayloadsWithin<T>(cs: seq<Node<T>>, k: nat)
    requires k <= |cs|
    ensures ChildLeafPayloads(cs, k) <= ChildPayloads(cs, k)
    decreases cs, k
  {
    if k > 0 {
      LeafPayloadsWithin(cs[k - 1]);
      ChildLeafPayloadsWithin(cs, k - 1);
    }
  }

  /** A payload held only in a subdivided node's own list (as Subdivide
      leaves the entries a leaf had) is never reported. */
  lemma QueryMissesInternalData<T>(n: Node<T>, box: Aabb, d: T)
    requires n.isSubdivided && d !in ChildPayloads(n.children, |n.children|)
    ensures d !in Query(n, box)
  {
    LeafPayloadsWithin(n);
    assert d !in multiset(Query(n, box));
  }

  /** A box that covers the tree reports exactly the payloads of its leaves. */
  lemma {:induction false} QueryCovering<T>(n: Node<T>, box: Aabb)
    requires Covers(box, n)
    ensures multiset(Query(n, box)) == LeafPayloads(n)
    decreases n
  {
    if n.isSubdivided {
      QueryChildrenCovering(n.children, |n.children|, box);
    }
  }

  lemma {:induction false} QueryChildrenCovering<T>(cs: seq<Node<T>>, k: nat, box: Aabb)
    requires k <= |cs|
    requires forall i :: 0 <= i < k ==> Covers(box, cs[i])
    ensures multiset(QueryChildren(cs, k, box)) == ChildLeafPayloads(cs, k)
    decreases cs, k
  {
    if k > 0 {
      QueryCovering(cs[k - 1], box);
      QueryChildrenCovering(cs, k - 1, box);
    }
  }

  // ---------------------------------------------------------- enumeration

  /** A leaf enumerates exactly its own list. */
  lemma EnumerateLeaf<T>(n: Node<T>)
    requires !n.isSubdivided
    ensures Enumerate(n) == n.data
  {
  }

  /** The own lists of the first `k` children hold exactly the payloads that
      one of those children holds on its own list. */
  lemma ChildrenDataHas<T>(cs: seq<Node<T>>, k: nat, d: T)
    requires k <= |cs|
    ensures d in ChildrenData(cs, k) <==> exists i :: 0 <= i < k && d in cs[i].data
  {
    if d in ChildrenData(cs, k) {
      ChildrenDataFrom(cs, k, d);
    }
    if exists i :: 0 <= i < k && d in cs[i].data {
      var i :| 0 <= i < k && d in cs[i].data;
      ChildrenDataOf(cs, k, i, d);
    }
  }

  /** A payload on the first `k` children's lists sits on one child's list ... */
  lemma {:induction false} ChildrenDataFrom<T>(cs: seq<Node<T>>, k: nat, d: T)
    requires k <= |cs| && d in ChildrenData(cs, k)
    ensures exists i :: 0 <= i < k && d in cs[i].data
    decreases k
  {
    assert ChildrenData(cs, k) == ChildrenData(cs, k - 1) + cs[k - 1].data;
    if d in cs[k - 1].data {
      assert 0 <= k - 1 < k && d in cs[k - 1].data;
    } else {
      ChildrenDataFrom(cs, k - 1, d);
      var i :| 0 <= i < k - 1 && d in cs[i].data;
      assert 0 <= i < k && d in cs[i].data;
    }
  }

  /** ... and a payload on child `i`'s list is enumerated with the first `k`. */
  lemma {:induction false} ChildrenDataOf<T>(cs: seq<Node<T>>, k: nat, i: nat, d: T)
    requires i < k <= |cs| && d in cs[i].data
    ensures d in ChildrenData(cs, k)
    decreases k
  {
    assert ChildrenData(cs, k) == ChildrenData(cs, k - 1) + cs[k - 1].data;
    if i < k - 1 {
      ChildrenDataOf(cs, k - 1, i, d);
    }
  }

  /** A subdivided node enumerates the payloads of its own list and of its
      children's own lists, and no payload stored any deeper. */
  lemma EnumerateIsShallow<T>(n: Node<T>, d: T)
    requires n.isSubdivided
    ensures d in Enumerate(n) <==>
      d in n.data || exists i :: 0 <= i < |n.children| && d in n.children[i].data
  {
    ChildrenDataHas(n.children, |n.children|, d);
  }

  /** A subdivided node enumerates the own lists of its children in child
      order 0 to 7, and then its own list. */
  lemma EnumerateChildOrder<T>(n: Node<T>)
    requires WellFormed(n) && n.isSubdivided
    ensures var c := n.children;
      Enumerate(n) == c[0].data + c[1].data + c[2].data + c[3].data
        + c[4].data + c[5].data + c[6].data + c[7].data + n.data
  {
    var c := n.children;
    assert ChildrenData(c, 1) == c[0].data;
    assert ChildrenData(c, 2) == ChildrenData(c, 1) + c[1].data;
    assert ChildrenData(c, 3) == ChildrenData(c, 2) + c[2].data;
    assert ChildrenData(c, 4) == ChildrenData(c, 3) + c[3].data;
    assert ChildrenData(c, 5) == ChildrenData(c, 4) + c[4].data;
    assert ChildrenData(c, 6) == ChildrenData(c, 5) + c[5].data;
    assert ChildrenData(c, 7) == ChildrenData(c, 6) + c[6].data;
    assert ChildrenData(c, 8) == ChildrenData(c, 7) + c[7].data;
  }

  // -------------------------------------------------------- worked example

  /** The tree that three inserts into a root of extent 16 at the origin
      with capacity 2 produce: the root keeps A and B on its own list and C
      went to child 5. */
  function ExampleTree<T>(a: T, b: T, c: T): Node<T> {
    var s := Subdivide(Node(Vec3(0.0, 0.0, 0.0), Vec3(16.0, 16.0, 16.0), 2, [a, b], false, []));
    s.(children := s.children[5 := s.children[5].(data := [c])])
  }

  lemma ExampleInserts<T>(a: T, b: T, c: T)
    ensures ThreeInserts(a, b, c) == ExampleTree(a, b, c)
  {
    var t0: Node<T> := Leaf(Vec3(0.0, 0.0, 0.0), Vec3(16.0, 16.0, 16.0), 2);
    var t1 := Insert(t0, Vec3(1.0, 1.0, 1.0), a);
    assert t1 == t0.(data := [a]);
    var t2 := Insert(t1, Vec3(2.0, 2.0, 2.0), b);
    assert t2 == t0.(data := [a, b]);
    var p := Vec3(3.0, 3.0, 3.0);
    assert ChildIndex(t2.center, p) == 5;
    var s := EnsureSubdivided(t2);
    assert s == Subdivide(t2);
    var k := s.children[5];
    assert Insert(k, p, c) == k.(data := [c]);
  }

  /** The shape of that tree, as far as the three operations below look. */
  ghost predicate ExampleShape<T>(t: Node<T>, a: T, b: T, c: T) {
    && t.isSubdivided && t.data == [a, b] && t.center == Vec3(0.0, 0.0, 0.0)
    && t.size == Vec3(16.0, 16.0, 16.0) && t.capacity == 2 && |t.children| == 8
    && t.children[5] == Node(Vec3(8.0, -8.0, -8.0), Vec3(8.0, 8.0, 8.0), 2, [c], false, [])
    && forall j :: 0 <= j < 8 && j != 5 ==>
         t.children[j].data == [] && !t.children[j].isSubdivided && t.children[j].children == []
         && t.children[j].capacity == 2
  }

  /** The root of extent 16 at the origin with capacity 2, after A, B and C
      are inserted at (1,1,1), (2,2,2) and (3,3,3). */
  function ThreeInserts<T>(a: T, b: T, c: T): (t: Node<T>)
    ensures WellFormed(t)
  {
    var t0: Node<T> := Leaf(Vec3(0.0, 0.0, 0.0), Vec3(16.0, 16.0, 16.0), 2);
    Insert(Insert(Insert(t0, Vec3(1.0, 1.0, 1.0), a), Vec3(2.0, 2.0, 2.0), b), Vec3(3.0, 3.0, 3.0), c)
  }

  /** In that tree, a query over a box holding the whole tree reports C
      alone, removing B at (2,2,2) fails because child 5 holds only C, and
      enumeration yields C, A, B. */
  lemma ThreeInsertsExample<T>(a: T, b: T, c: T)
    requires b != c
    ensures Query(ThreeInserts(a, b, c), Aabb(Vec3(-20.0, -20.0, -20.0), Vec3(40.0, 40.0, 40.0))) == [c]
    ensures !Remove(ThreeInserts(a, b, c), Vec3(2.0, 2.0, 2.0), b).1
    ensures Enumerate(ThreeInserts(a, b, c)) == [c, a, b]
  {
    ExampleInserts(a, b, c);
    ExampleChildren(a, b, c);
    var t := ThreeInserts(a, b, c);
    ExampleQuery(t, a, b, c);
    ExampleRemove(t, a, b, c);
    ExampleEnumerate(t, a, b, c);
  }

  lemma ExampleChildren<T>(a: T, b: T, c: T)
    ensures ExampleShape(ExampleTree(a, b, c), a, b, c)
  {
    var t2: Node<T> := Node(Vec3(0.0, 0.0, 0.0), Vec3(16.0, 16.0, 16.0), 2, [a, b], false, []);
    SubdivideChildren(t2);
  }

  lemma ExampleWellFormed<T>(t: Node<T>, a: T, b: T, c: T)
    requires ExampleShape(t, a, b, c)
    ensures WellFormed(t)
  {
    forall i | 0 <= i < 8 ensures WellFormed(t.children[i]) {
      if i != 5 {
        assert t.children[i].children == [];
      }
    }
  }

  lemma ExampleQuery<T>(t: Node<T>, a: T, b: T, c: T)
    requires ExampleShape(t, a, b, c)
    ensures Query(t, Aabb(Vec3(-20.0, -20.0, -20.0), Vec3(40.0, 40.0, 40.0))) == [c]
  {
    var box := Aabb(Vec3(-20.0, -20.0, -20.0), Vec3(40.0, 40.0, 40.0));
    var cs := t.children;
    forall j | 0 <= j < 8 && j != 5 ensures Query(cs[j], box) == [] {
      QueryLeaf(cs[j], box);
    }
    var k5 := cs[5];
    assert k5.center == Vec3(8.0, -8.0, -8.0) && k5.size == Vec3(8.0, 8.0, 8.0);
    assert Intersects(box, Bounds(k5.center, k5.size)) && HasPoint(box, k5.center);
    QueryLeaf(k5, box);
    assert QueryChildren(cs, 5, box) == [] by {
      assert QueryChildren(cs, 1, box) == [];
      assert QueryChildren(cs, 2, box) == [];
      assert QueryChildren(cs, 3, box) == [];
      assert QueryChildren(cs, 4, box) == [];
    }
    assert QueryChildren(cs, 6, box) == [c];
    assert QueryChildren(cs, 7, box) == [c];
    assert QueryChildren(cs, 8, box) == [c];
    assert Intersects(box, Bounds(t.center, t.size));
  }

  lemma ExampleRemove<T>(t: Node<T>, a: T, b: T, c: T)
    requires ExampleShape(t, a, b, c) && b != c
    ensures !Remove(t, Vec3(2.0, 2.0, 2.0), b).1
  {
    ExampleWellFormed(t, a, b, c);
    assert ChildIndex(t.center, Vec3(2.0, 2.0, 2.0)) == 5;
    assert !Remove(t.children[5], Vec3(2.0, 2.0, 2.0), b).1;
  }

  lemma ExampleEnumerate<T>(t: Node<T>, a: T, b: T, c: T)
    requires ExampleShape(t, a, b, c)
    ensures Enumerate(t) == [c, a, b]
  {
    var cs := t.children;
    assert ChildrenData(cs, 5) == [] by {
      assert cs[0].data == [] && cs[1].data == [] && cs[2].data == [];
      assert cs[3].data == [] && cs[4].data == [];
      assert ChildrenData(cs, 1) == [];
      assert ChildrenData(cs, 2) == [];
      assert ChildrenData(cs, 3) == [];
      assert ChildrenData(cs, 4) == [];
    }
    assert cs[5].data == [c] && cs[6].data == [] && cs[7].data == [];
    assert ChildrenData(cs, 6) == [c];
    assert ChildrenData(cs, 7) == [c];
    assert ChildrenData(cs, 8) == [c];
  }
}
