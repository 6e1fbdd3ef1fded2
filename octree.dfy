/** The `Octree<T>` class of Scripts/Octree.cs as a heap structure: each node
    is an object with the same six fields, children live in an array of
    eight, and every method updates the nodes in place. The ghost field
    `Tree` is the node as a value; each method is proved to change it as the
    matching function of OctreeModel does, so all the properties proved there
    hold of the objects too. */
module Octrees {
  import opened Geometry
  import opened OctreeModel
  import opened OctreeProperties

  /** How the growth loop of Update ends. */
  datatype GrowEnd = Reached | SubdividedRoot | OutOfFuel

  class Octree<T(==)> {
    var Center: Vec3
    var Size: Vec3
    var BlockCapacity: int
    var Children: array?<Octree<T>>
    var Data: seq<T>
    var IsSubdivided: bool

    /** The subtree rooted here, as a value. */
    ghost var Tree: Node<T>
    /** The objects that make up the subtree: the nodes and their child arrays. */
    ghost var Repr: set<object>

    /** The fields agree with `Tree`, a subdivided node owns an array of eight
        valid children with pairwise disjoint footprints, and a leaf has no
        array (the null Children of the source). */
    ghost predicate Valid()
      reads this, Repr
      ensures Valid() ==> this in Repr && WellFormed(Tree)
      decreases Repr, 1
    {
      && this in Repr
      && Mirrors()
      && (IsSubdivided ==> ChildrenValid())
    }

    /** The fields of this node agree with `Tree`. */
    ghost predicate Mirrors()
      reads this
    {
      && BlockCapacity >= 1
      && Tree.center == Center && Tree.size == Size && Tree.capacity == BlockCapacity
      && Tree.data == Data && Tree.isSubdivided == IsSubdivided
      && (!IsSubdivided ==> Children == null && Tree.children == [])
      && (IsSubdivided ==> Children != null && Children.Length == 8 && |Tree.children| == 8)
    }

    /** The eight children are valid, disjoint, owned, and agree with `Tree`. */
    ghost predicate ChildrenValid()
      reads this, Repr
      decreases Repr, 0
    {
      && this in Repr && Children != null && Children.Length == 8 && Children in Repr && |Tree.children| == 8
      && (forall i :: 0 <= i < 8 ==>
            && Children[i] in Repr && Children[i].Repr <= Repr
            && this !in Children[i].Repr && Children !in Children[i].Repr)
      && (forall i, j :: 0 <= i < j < 8 ==> Children[i].Repr !! Children[j].Repr)
      && (forall i :: 0 <= i < 8 ==> Children[i].Tree == Tree.children[i] && Children[i].Valid())
    }

    /** Octree(center, size, blockCapacity) (Octree.cs:43-48): an empty leaf. */
    constructor (center: Vec3, size: Vec3, blockCapacity: int)
      requires blockCapacity >= 1
      ensures Valid() && Repr == {this}
      ensures Tree == Leaf(center, size, blockCapacity)
    {
      Center := center;
      Size := size;
      BlockCapacity := blockCapacity;
      Children := null;
      Data := [];
      IsSubdivided := false;
      Tree := Leaf(center, size, blockCapacity);
      Repr := {this};
    }

    /** GetChildIndex (Octree.cs:49), on this node's centre. */
    function GetChildIndex(point: Vec3): int
      reads this
    {
      ChildIndex(Center, point)
    }

    /** The Bounds property (Octree.cs:50). */
    function Bounds(): Aabb
      reads this
    {
      Geometry.Bounds(Center, Size)
    }

    /** AdjustThresholdBasedOnPerformanceMetrics (Octree.cs:54-64): retunes this
        node's capacity only; the children keep theirs. */
    method AdjustThresholdBasedOnPerformanceMetrics(currentFrameRate: real)
      requires Valid()
      modifies this
      ensures Valid() && Repr == old(Repr)
      ensures Tree == old(Tree).(capacity := AdjustedCapacity(old(BlockCapacity), currentFrameRate))
    {
      if currentFrameRate < PerformanceThreshold {
        BlockCapacity := Max(MinCapacity, BlockCapacity - 2);
      } else {
        BlockCapacity := if MaxCapacity < BlockCapacity + 1 then MaxCapacity else BlockCapacity + 1;
      }
      Tree := Tree.(capacity := BlockCapacity);
    }

    /** The children array Subdivide builds (Octree.cs:78-87): eight fresh
        empty leaves, child `i` centred at ChildOffset(h, i) from `c`. */
    static method NewChildren(c: Vec3, h: Vec3, k: int) returns (a: array<Octree<T>>, ghost fp: set<object>)
      requires k >= 1
      ensures fresh(a) && a.Length == 8 && fresh(fp) && a !in fp
      ensures forall i :: 0 <= i < 8 ==>
        && a[i] in fp && a[i].Repr == {a[i]} && a[i].Valid()
        && a[i].Tree == Leaf(c.Add(ChildOffset(h, i)), h, k)
      ensures forall i, j :: 0 <= i < j < 8 ==> a[i] != a[j]
    {
      var cs: seq<Octree<T>> := [];
      fp := {};
      for i := 0 to 8
        invariant |cs| == i && fresh(fp)
        invariant forall j :: 0 <= j < i ==> cs[j] in fp
        invariant forall j :: 0 <= j < i ==> cs[j].Repr == {cs[j]}
        invariant forall j :: 0 <= j < i ==> cs[j].Valid()
        invariant forall j :: 0 <= j < i ==> cs[j].Tree == Leaf(c.Add(ChildOffset(h, j)), h, k)
        invariant forall j, l :: 0 <= j < l < i ==> cs[j] != cs[l]
      {
        var child := new Octree(c.Add(ChildOffset(h, i)), h, k);
        assert forall j :: 0 <= j < i ==> (cs + [child])[j] == cs[j];
        cs := cs + [child];
        fp := fp + {child};
      }
      a := new Octree<T>[8](i requires 0 <= i < 8 => cs[i]);
    }

    /** Subdivide (Octree.cs:72-88): eight fresh empty children; the node's
        own list stays where it is. */
    method Subdivide()
      requires Valid()
      modifies this
      ensures Valid() && fresh(Repr - old(Repr))
      ensures Tree == OctreeModel.Subdivide(old(Tree))
      ensures Children != null && fresh(Children)
      ensures forall i :: 0 <= i < Children.Length ==> fresh(Children[i])
    {
      label B:
      IsSubdivided := true;
      var a, fp := NewChildren(Center, Size.Halve(), BlockCapacity);
      Children := a;
      Tree := OctreeModel.Subdivide(Tree);
      Repr := Repr + {a} + fp;
      TookChildren@B(a, fp);
    }

    /** A leaf that took fresh children `a`, built as NewChildren builds
        them, is valid as the subdivided node. */
    twostate lemma TookChildren(new a: array<Octree<T>>, new fp: set<object>)
      requires old(Valid())
      requires unchanged(this`Center, this`Size, this`BlockCapacity, this`Data)
      requires fresh(a) && a.Length == 8 && fresh(fp) && a !in fp
      requires forall i :: 0 <= i < 8 ==>
        && a[i] in fp && a[i].Repr == {a[i]} && a[i].Valid()
        && a[i].Tree == Leaf(Center.Add(ChildOffset(Size.Halve(), i)), Size.Halve(), BlockCapacity)
      requires forall i, j :: 0 <= i < j < 8 ==> a[i] != a[j]
      requires IsSubdivided && Children == a
      requires Tree == OctreeModel.Subdivide(old(Tree)) && Repr == old(Repr) + {a} + fp
      ensures Valid() && fresh(Repr - old(Repr))
    {
      SubdivideChildren(old(Tree));
    }

    /** Insert (Octree.cs:89-107): a leaf with room appends; otherwise the
        node subdivides if it is still a leaf and the payload goes to a child. */
    method Insert(point: Vec3, data: T)
      requires Valid()
      modifies Repr
      ensures Valid() && fresh(Repr - old(Repr))
      ensures Tree == OctreeModel.Insert(old(Tree), point, data)
      decreases Height(Tree), if IsFullLeaf(Tree) then 1 else 0, 1
    {
      if !IsSubdivided && |Data| < BlockCapacity {
        Data := Data + [data];
        Tree := Tree.(data := Data);
      } else {
        ghost var t0 := Tree;
        if !IsSubdivided {
          Subdivide();
        }
        InsertIntoChild(point, data, t0);
      }
    }

    /** Octree.cs:104: once subdivided, the node passes the payload to the
        child GetChildIndex picks; `t0` is the node as Insert found it. */
    method InsertIntoChild(point: Vec3, data: T, ghost t0: Node<T>)
      requires Valid() && IsSubdivided
      requires WellFormed(t0) && (t0.isSubdivided || |t0.data| >= t0.capacity)
      requires Tree == EnsureSubdivided(t0)
      modifies Repr
      ensures Valid() && fresh(Repr - old(Repr))
      ensures Tree == OctreeModel.Insert(t0, point, data)
      decreases Height(t0), if IsFullLeaf(t0) then 1 else 0, 0
    {
      ghost var m := Tree;
      InsertMeasure(t0, m, point);
      var i := GetChildIndex(point);
      var child := Children[i];
      assert ChildrenValid();
      assert child.Valid() && child.Tree == m.children[i] && child.Repr <= Repr;
      label L:
      child.Insert(point, data);
      assert this !in child.Repr && Children !in child.Repr;
      Tree := m.(children := m.children[i := child.Tree]);
      Repr := Repr + child.Repr;
      ChildGrew@L(i);
      InsertStep(t0, m, point, data);
    }

    /** Insert on a node that is not a leaf with room routes through the
        subdivided node and recurses on a child of smaller measure. */
    static lemma InsertStep(t0: Node<T>, m: Node<T>, p: Vec3, d: T)
      requires WellFormed(t0) && !(!t0.isSubdivided && |t0.data| < t0.capacity)
      requires m == EnsureSubdivided(t0)
      ensures var i := ChildIndex(t0.center, p);
        OctreeModel.Insert(t0, p, d) == m.(children := m.children[i := OctreeModel.Insert(m.children[i], p, d)])
    {
    }

    /** ... on a child of smaller measure. */
    static lemma InsertMeasure(t0: Node<T>, m: Node<T>, p: Vec3)
      requires WellFormed(t0) && !(!t0.isSubdivided && |t0.data| < t0.capacity)
      requires m == EnsureSubdivided(t0)
      ensures var i := ChildIndex(t0.center, p);
        && (t0.isSubdivided ==> Height(m.children[i]) < Height(t0))
        && (!t0.isSubdivided ==> Height(m.children[i]) == 0 && !IsFullLeaf(m.children[i]))
    {
    }

    /** After child `i` changed in place, keeping its own invariant and
        taking in only fresh objects, the node is valid again once its value
        and footprint take in the child's new ones. */
    twostate lemma ChildGrew(i: int)
      requires 0 <= i < 8 && old(Valid()) && old(IsSubdivided)
      requires unchanged(this`Center, this`Size, this`BlockCapacity, this`Data, this`IsSubdivided, this`Children)
      requires unchanged(Children)
      requires unchanged(old(Repr) - old(Children[i].Repr) - {this})
      requires Children[i].Valid() && fresh(Children[i].Repr - old(Children[i].Repr))
      requires Tree == old(Tree).(children := old(Tree).children[i := Children[i].Tree])
      requires Repr == old(Repr) + Children[i].Repr
      ensures Valid() && fresh(Repr - old(Repr))
    {
    }

    /** TryMerge (Octree.cs:172-193): a subdivided node whose eight children
        are all empty leaves drops them and becomes a leaf again. */
    method TryMerge() returns (merged: bool)
      requires Valid()
      modifies this
      ensures Valid() && Repr == old(Repr)
      ensures (Tree, merged) == OctreeModel.TryMerge(old(Tree))
    {
      if !IsSubdivided {
        return false;
      }
      assert ChildrenValid();
      for i := 0 to 8
        invariant forall j :: 0 <= j < i ==> !Tree.children[j].isSubdivided && Tree.children[j].data == []
      {
        if Children[i].IsSubdivided || |Children[i].Data| > 0 {
          return false;
        }
      }
      Children := null;
      IsSubdivided := false;
      Tree := Tree.(children := [], isSubdivided := false);
      merged := true;
    }

    /** Remove (Octree.cs:195-214): a subdivided node asks the child
        GetChildIndex picks and tries to merge after a success; a leaf takes
        the first equal payload out of its own list. */
    method Remove(point: Vec3, data: T) returns (removed: bool)
      requires Valid()
      modifies Repr
      ensures Valid() && Repr == old(Repr)
      ensures (Tree, removed) == OctreeModel.Remove(old(Tree), point, data)
      decreases Repr
    {
      if IsSubdivided {
        var i := GetChildIndex(point);
        var child := Children[i];
        ghost var t0 := Tree;
        assert child.Tree == t0.children[i];
        label L:
        removed := child.Remove(point, data);
        Tree := t0.(children := t0.children[i := child.Tree]);
        ChildGrew@L(i);
        if removed {
          var _ := TryMerge();
        } else {
          assert t0.children[i := child.Tree] == t0.children;
        }
      } else {
        removed := data in Data;
        Data := RemoveFirst(Data, data);
        Tree := Tree.(data := Data);
      }
    }

    /** Grow on a leaf (Octree.cs:133-139, 156-171): a fresh node of twice
        the size, centred towards the point, receives this node's payloads
        again, each at `pos` of it, and this node takes over its fields.
        `pos` stands for the Position property of a payload. */
    method Grow(newPoint: Vec3, pos: T -> Vec3)
      requires Valid() && !IsSubdivided
      modifies this
      ensures Valid() && fresh(Repr - old(Repr))
      ensures Tree == OctreeModel.Grow(old(Tree), newPoint, pos)
    {
      var direction := GetChildIndex(newPoint);
      var newCenter := Center.Add(Size.Scale(direction as real - 0.5));
      var grownOctree := new Octree(newCenter, Size.Scale(2.0), BlockCapacity);
      var k := 0;
      while k < |Data|
        invariant 0 <= k <= |Data|
        invariant unchanged(this)
        invariant grownOctree.Valid() && fresh(grownOctree.Repr)
        invariant InsertAll(grownOctree.Tree, Data[k..], pos) == OctreeModel.Grow(Tree, newPoint, pos)
      {
        assert Data[k..][1..] == Data[k + 1..];
        grownOctree.Insert(pos(Data[k]), Data[k]);
        k := k + 1;
      }
      TakeOver(grownOctree);
    }

    /** Octree.cs:166-170: this node takes the fields of `g`, so it stands
        for the tree `g` was; `g` itself is dropped. */
    method TakeOver(g: Octree<T>)
      requires g.Valid() && this !in g.Repr && g.BlockCapacity == BlockCapacity
      modifies this
      ensures Valid() && Tree == g.Tree && Repr == g.Repr - {g} + {this}
    {
      Center, Size, Children, Data, IsSubdivided := g.Center, g.Size, g.Children, g.Data, g.IsSubdivided;
      Tree, Repr := g.Tree, g.Repr - {g} + {this};
      SharesFields(g);
    }

    /** A node that holds the fields, value and footprint of a valid `g`
        (with itself in place of `g`) is valid, owning `g`'s children. */
    twostate lemma SharesFields(g: Octree<T>)
      requires old(g.Valid()) && old(this !in g.Repr) && unchanged(old(g.Repr))
      requires Center == g.Center && Size == g.Size && BlockCapacity == g.BlockCapacity
      requires Children == g.Children && Data == g.Data && IsSubdivided == g.IsSubdivided
      requires Tree == g.Tree && Repr == g.Repr - {g} + {this}
      ensures Valid()
    {
      if IsSubdivided {
        forall i | 0 <= i < 8
          ensures g !in Children[i].Repr
        {
        }
      }
    }

    /** Update (Octree.cs:109-131): for each movement in turn, remove the
        payload at its old point (stopping with RemoveFailed when that finds
        nothing, where the source throws), grow until the bounds hold the new
        point, and insert it there. `fuel` bounds the growth steps per
        movement. */
    method Update(movements: seq<Movement<T>>, pos: T -> Vec3, fuel: nat) returns (status: UpdateStatus)
      requires Valid()
      modifies Repr
      ensures Valid() && fresh(Repr - old(Repr))
      ensures (Tree, status) == OctreeModel.Update(old(Tree), movements, pos, fuel)
    {
      var k := 0;
      while k < |movements|
        invariant 0 <= k <= |movements|
        invariant Valid() && fresh(Repr - old(Repr))
        invariant UpdateFrom(Tree, movements, k, pos, fuel) == OctreeModel.Update(old(Tree), movements, pos, fuel)
        decreases |movements| - k
      {
        status := ApplyMovement(movements, k, pos, fuel);
        if !status.Done? {
          return;
        }
        k := k + 1;
      }
      status := Done;
    }

    /** The body of the loop of Update for movement `k`: Done when the
        payload moved and the loop goes on, the failure otherwise. */
    method ApplyMovement(movements: seq<Movement<T>>, k: nat, pos: T -> Vec3, fuel: nat) returns (status: UpdateStatus)
      requires Valid() && k < |movements|
      modifies Repr
      ensures Valid() && fresh(Repr - old(Repr))
      ensures status.Done? ==>
        UpdateFrom(old(Tree), movements, k, pos, fuel) == UpdateFrom(Tree, movements, k + 1, pos, fuel)
      ensures !status.Done? ==> UpdateFrom(old(Tree), movements, k, pos, fuel) == (Tree, status)
    {
      var movement := movements[k];
      UpdateFromStep(Tree, movements, k, pos, fuel);
      var removed := Remove(movement.oldPoint, movement.data);
      if !removed {
        return RemoveFailed(k);
      }
      var e := MoveIn(movement.newPoint, movement.data, pos, fuel);
      status := match e
        case Reached => Done
        case SubdividedRoot => GrowOnSubdivided(k)
        case OutOfFuel => GrowthUnbounded(k);
    }

    /** Octree.cs:122-128: grow until the bounds hold `point`, then insert
        the payload there. */
    method MoveIn(point: Vec3, data: T, pos: T -> Vec3, fuel: nat) returns (e: GrowEnd)
      requires Valid()
      modifies Repr
      ensures Valid() && fresh(Repr - old(Repr))
      ensures var g := GrowUntil(old(Tree), point, pos, fuel);
        && (e == Reached <==> g.Covered?)
        && (e == SubdividedRoot <==> g.NullChildren?)
        && Tree == if e == Reached then OctreeModel.Insert(g.tree, point, data) else g.tree
    {
      e := GrowToCover(point, pos, fuel);
      if e == Reached {
        Insert(point, data);
      }
    }

    /** The growth loop of Update (Octree.cs:122-125): grow until the bounds
        hold `point`, stopping where Grow would meet a subdivided root or
        after `fuel` rounds. */
    method GrowToCover(point: Vec3, pos: T -> Vec3, fuel: nat) returns (e: GrowEnd)
      requires Valid()
      modifies this
      ensures Valid() && fresh(Repr - old(Repr))
      ensures Tree == GrowUntil(old(Tree), point, pos, fuel).tree
      ensures e == Reached <==> GrowUntil(old(Tree), point, pos, fuel).Covered?
      ensures e == SubdividedRoot <==> GrowUntil(old(Tree), point, pos, fuel).NullChildren?
    {
      var f := fuel;
      while !HasPoint(Bounds(), point)
        invariant Valid() && fresh(Repr - old(Repr))
        invariant GrowUntil(Tree, point, pos, f) == GrowUntil(old(Tree), point, pos, fuel)
        decreases f
      {
        if IsSubdivided {
          return SubdividedRoot;
        }
        if f == 0 {
          return OutOfFuel;
        }
        ghost var before := Tree;
        Grow(point, pos);
        GrowUntilStep(before, point, pos, f);
        f := f - 1;
      }
      e := Reached;
    }

    /** One movement of Update, in the terms the method takes it. */
    static lemma UpdateFromStep(n: Node<T>, ms: seq<Movement<T>>, k: nat, pos: T -> Vec3, fuel: nat)
      requires WellFormed(n) && k < |ms|
      ensures var r := OctreeModel.Remove(n, ms[k].oldPoint, ms[k].data);
        var g := GrowUntil(r.0, ms[k].newPoint, pos, fuel);
        UpdateFrom(n, ms, k, pos, fuel) ==
          if !r.1 then (n, RemoveFailed(k))
          else if g.NullChildren? then (g.tree, GrowOnSubdivided(k))
          else if g.FuelExhausted? then (g.tree, GrowthUnbounded(k))
          else UpdateFrom(OctreeModel.Insert(g.tree, ms[k].newPoint, ms[k].data), ms, k + 1, pos, fuel)
    {
    }

    /** One round of the growth loop of Update. */
    static lemma GrowUntilStep(n: Node<T>, p: Vec3, pos: T -> Vec3, f: nat)
      requires WellFormed(n) && !HasPoint(Geometry.Bounds(n.center, n.size), p) && !n.isSubdivided && f > 0
      ensures GrowUntil(n, p, pos, f) == GrowUntil(OctreeModel.Grow(n, p, pos), p, pos, f - 1)
    {
    }

    /** Query (Octree.cs:239-262): appends to `results` what the box finds
        below this node, in child order. */
    method Query(bounds: Aabb, results: seq<T>) returns (out: seq<T>)
      requires Valid()
      ensures out == results + OctreeModel.Query(Tree, bounds)
      decreases Repr
    {
      if !Intersects(bounds, Bounds()) {
        return results;
      }
      if IsSubdivided {
        assert ChildrenValid();
        out := results;
        for i := 0 to 8
          invariant out == results + QueryChildren(Tree.children, i, bounds)
        {
          var child := Children[i];
          assert child.Valid() && child.Tree == Tree.children[i] && child.Repr < Repr;
          out := child.Query(bounds, out);
        }
      } else if |Data| > 0 && HasPoint(bounds, Center) {
        out := results + Data;
      } else {
        out := results;
      }
    }

    /** GetEnumerator (Octree.cs:265-284): the sequence the enumerator
        yields, the children's own lists first, then this node's. */
    method GetEnumerator() returns (s: seq<T>)
      requires Valid()
      ensures s == Enumerate(Tree)
    {
      s := [];
      if IsSubdivided {
        assert ChildrenValid();
        for i := 0 to 8
          invariant s == ChildrenData(Tree.children, i)
        {
          var child := Children[i];
          for j := 0 to |child.Data|
            invariant s == ChildrenData(Tree.children, i) + child.Data[..j]
          {
            s := s + [child.Data[j]];
          }
          assert child.Data[..|child.Data|] == child.Data;
        }
      }
      ghost var prefix := s;
      for j := 0 to |Data|
        invariant s == prefix + Data[..j]
      {
        s := s + [Data[j]];
      }
      assert Data[..|Data|] == Data;
    }
  }
}
