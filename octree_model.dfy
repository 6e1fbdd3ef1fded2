/** The octree of Scripts/Octree.cs as a value: one `Node` per `Octree<T>`
    object, with the same six pieces of state, and one function per operation
    that computes the node an operation leaves behind. The heap version in
    octree.dfy is proved to follow these functions. */
module OctreeModel {
  import opened Geometry

  /** Frame rate below which the capacity is lowered. */
  const PerformanceThreshold: real := 60.0
  /** Bounds the capacity tuning clamps to. */
  const MinCapacity: int := 4
  const MaxCapacity: int := 20

  /** One node: its centre, its full extent on each axis, the number of
      payloads it holds before it subdivides, its own payload list, whether it
      is subdivided, and its children (`[]` stands for the null array). */
  datatype Node<T> = Node(
    center: Vec3,
    size: Vec3,
    capacity: int,
    data: seq<T>,
    isSubdivided: bool,
    children: seq<Node<T>>)

  /** A freshly constructed node: no payloads, no children. */
  function Leaf<T>(center: Vec3, size: Vec3, capacity: int): (r: Node<T>)
    ensures !r.isSubdivided && r.data == [] && r.children == []
    ensures r.center == center && r.size == size && r.capacity == capacity
  {
    Node(center, size, capacity, [], false, [])
  }

  /** The shape every node keeps: eight children exactly when subdivided, and
      a positive capacity (with a capacity of zero or less, Insert would
      subdivide without end). */
  ghost predicate WellFormed<T>(n: Node<T>)
    decreases n
  {
    && n.capacity >= 1
    && (n.isSubdivided ==> |n.children| == 8)
    && (!n.isSubdivided ==> n.children == [])
    && forall i :: 0 <= i < |n.children| ==> WellFormed(n.children[i])
  }

  // ---------------------------------------------------------------- sizes

  function Max(a: int, b: int): int {
    if a < b then b else a
  }

  /** Number of levels below the node. */
  ghost function Height<T>(n: Node<T>): nat
    decreases n
  {
    if n.children == [] then 0 else 1 + MaxHeight(n.children, |n.children|)
  }

  /** The largest height among the first `k` children. */
  ghost function MaxHeight<T>(cs: seq<Node<T>>, k: nat): (h: nat)
    requires k <= |cs|
    ensures forall i :: 0 <= i < k ==> Height(cs[i]) <= h
    decreases cs, k
  {
    if k == 0 then 0 else Max(MaxHeight(cs, k - 1), Height(cs[k - 1]))
  }

  /** Every payload anywhere in the subtree, the node's own list included. */
  ghost function Payloads<T>(n: Node<T>): multiset<T>
    decreases n
  {
    multiset(n.data) + ChildPayloads(n.children, |n.children|)
  }

  /** The payloads in the subtrees of the first `k` children. */
  ghost function ChildPayloads<T>(cs: seq<Node<T>>, k: nat): multiset<T>
    requires k <= |cs|
    decreases cs, k
  {
    if k == 0 then multiset{} else ChildPayloads(cs, k - 1) + Payloads(cs[k - 1])
  }

  /** Payloads held by leaves only: what a query can ever report. */
  ghost function LeafPayloads<T>(n: Node<T>): multiset<T>
    decreases n
  {
    if n.isSubdivided then ChildLeafPayloads(n.children, |n.children|) else multiset(n.data)
  }

  ghost function ChildLeafPayloads<T>(cs: seq<Node<T>>, k: nat): multiset<T>
    requires k <= |cs|
    decreases cs, k
  {
    if k == 0 then multiset{} else ChildLeafPayloads(cs, k - 1) + LeafPayloads(cs[k - 1])
  }

  // ------------------------------------------------- child classification

  /** GetChildIndex (Octree.cs:49): bit 1 for +x, bit 2 for -y, bit 4 for +z;
      a coordinate equal to the centre counts as -x, +y and -z. */
  function ChildIndex(center: Vec3, p: Vec3): (i: int)
    ensures 0 <= i < 8
    ensures i % 2 == 1 <==> p.x > center.x
    ensures (i / 2) % 2 == 1 <==> p.y < center.y
    ensures i >= 4 <==> p.z > center.z
    ensures p == center ==> i == 0
  {
    (if p.x <= center.x then 0 else 1)
    + (if p.y >= center.y then 0 else 2)
    + (if p.z <= center.z then 0 else 4)
  }

  // ---------------------------------------------------- capacity tuning

  /** AdjustThresholdBasedOnPerformanceMetrics (Octree.cs:54-64): below the
      threshold the capacity drops by two but not under 4; otherwise it rises
      by one but not over 20. */
  function AdjustedCapacity(capacity: int, frameRate: real): (r: int)
    ensures frameRate < PerformanceThreshold ==>
      r >= MinCapacity && r >= capacity - 2 && (r == MinCapacity || r == capacity - 2)
    ensures frameRate >= PerformanceThreshold ==>
      r <= MaxCapacity && r <= capacity + 1 && (r == MaxCapacity || r == capacity + 1)
  {
    if frameRate < PerformanceThreshold then Max(MinCapacity, capacity - 2)
    else if MaxCapacity < capacity + 1 then MaxCapacity else capacity + 1
  }

  // ---------------------------------------------------------- subdivision

  /** Offset of child `i` from its parent's centre, as Subdivide lays the
      children out (Octree.cs:79-86): bit 1 for +x, bit 2 for +z, bit 4 for -y. */
  function ChildOffset(h: Vec3, i: int): Vec3 {
    Vec3(
      if i % 2 == 1 then h.x else -h.x,
      if i < 4 then h.y else -h.y,
      if (i / 2) % 2 == 1 then h.z else -h.z)
  }

  /** Subdivide (Octree.cs:72-88): eight fresh children of half the size,
      centred half the parent's size away; the parent's own list stays. */
  function Subdivide<T>(n: Node<T>): (r: Node<T>)
    ensures r.isSubdivided && |r.children| == 8
    ensures r.center == n.center && r.size == n.size
    ensures r.capacity == n.capacity && r.data == n.data
  {
    var h := n.size.Halve();
    var c := n.center;
    var k := n.capacity;
    n.(isSubdivided := true, children := [
      Leaf(c.Add(Vec3(-h.x, h.y, -h.z)), h, k),
      Leaf(c.Add(Vec3(h.x, h.y, -h.z)), h, k),
      Leaf(c.Add(Vec3(-h.x, h.y, h.z)), h, k),
      Leaf(c.Add(Vec3(h.x, h.y, h.z)), h, k),
      Leaf(c.Add(Vec3(-h.x, -h.y, -h.z)), h, k),
      Leaf(c.Add(Vec3(h.x, -h.y, -h.z)), h, k),
      Leaf(c.Add(Vec3(-h.x, -h.y, h.z)), h, k),
      Leaf(c.Add(Vec3(h.x, -h.y, h.z)), h, k)])
  }

  // --------------------------------------------------------------- insert

  /** A leaf that is full, which Insert will subdivide. */
  predicate IsFullLeaf<T>(n: Node<T>) {
    !n.isSubdivided && |n.data| >= n.capacity
  }

  /** The node Insert routes through (Octree.cs:99-102): the node itself when
      it is subdivided, otherwise the node after Subdivide. */
  function EnsureSubdivided<T>(n: Node<T>): (m: Node<T>)
    requires WellFormed(n)
    ensures WellFormed(m) && m.isSubdivided
    ensures m.center == n.center && m.size == n.size
    ensures m.capacity == n.capacity && m.data == n.data
    ensures !n.isSubdivided ==> ChildrenEmptyLeaves(m.children)
    ensures !n.isSubdivided ==> forall i :: 0 <= i < 8 ==>
      m.children[i].children == [] && m.children[i].capacity == n.capacity
  {
    if n.isSubdivided then n else Subdivide(n)
  }

  /** Insert (Octree.cs:89-107): a leaf with room appends; otherwise the node
      is subdivided if it is not yet, and the payload goes to the child that
      GetChildIndex picks for the point. */
  function Insert<T>(n: Node<T>, p: Vec3, d: T): (r: Node<T>)
    requires WellFormed(n)
    ensures WellFormed(r)
    ensures r.center == n.center && r.size == n.size && r.capacity == n.capacity
    ensures r.data == if !n.isSubdivided && |n.data| < n.capacity then n.data + [d] else n.data
    decreases Height(n), if IsFullLeaf(n) then 1 else 0
  {
    if !n.isSubdivided && |n.data| < n.capacity then
      n.(data := n.data + [d])
    else
      var m := EnsureSubdivided(n);
      var i := ChildIndex(n.center, p);
      assert n.isSubdivided ==> Height(m.children[i]) < Height(n);
      m.(children := m.children[i := Insert(m.children[i], p, d)])
  }

  // --------------------------------------------------------------- remove

  /** List<T>.Remove: drops the first element equal to `d`, if there is one. */
  function RemoveFirst<T(==)>(s: seq<T>, d: T): (r: seq<T>)
    ensures d !in s ==> r == s
    ensures d in s ==> |r| == |s| - 1
  {
    if s == [] then s
    else if s[0] == d then s[1..]
    else [s[0]] + RemoveFirst(s[1..], d)
  }

  /** All children are leaves with no payloads (the test at Octree.cs:179-185). */
  predicate ChildrenEmptyLeaves<T>(cs: seq<Node<T>>) {
    forall i :: 0 <= i < |cs| ==> !cs[i].isSubdivided && cs[i].data == []
  }

  /** TryMerge (Octree.cs:172-193): drops the children of a subdivided node
      whose children are all empty leaves, and reports whether it did. */
  function TryMerge<T>(n: Node<T>): (r: (Node<T>, bool))
    requires WellFormed(n)
    ensures WellFormed(r.0)
    ensures r.0.center == n.center && r.0.size == n.size
    ensures r.0.capacity == n.capacity && r.0.data == n.data
  {
    if !n.isSubdivided then (n, false)
    else if !ChildrenEmptyLeaves(n.children) then (n, false)
    else (n.(children := [], isSubdivided := false), true)
  }

  /** Remove (Octree.cs:195-214): a subdivided node passes the request to the
      child GetChildIndex picks and tries to merge after a success; a leaf
      removes the first equal payload from its own list. */
  function Remove<T(==)>(n: Node<T>, p: Vec3, d: T): (r: (Node<T>, bool))
    requires WellFormed(n)
    ensures WellFormed(r.0)
    ensures r.0.center == n.center && r.0.size == n.size
    ensures r.0.capacity == n.capacity
    ensures !r.1 ==> r.0 == n
    decreases n
  {
    if n.isSubdivided then
      var i := ChildIndex(n.center, p);
      var (c, removed) := Remove(n.children[i], p, d);
      if removed then (TryMerge(n.(children := n.children[i := c])).0, true)
      else (n, false)
    else if d in n.data then
      (n.(data := RemoveFirst(n.data, d)), true)
    else
      (n, false)
  }

  // ----------------------------------------------------------------- grow

  /** The centre Grow gives the new root (Octree.cs:135-136): the old centre
      plus the old size times (GetChildIndex(point) - 0.5). */
  function GrowCenter(center: Vec3, size: Vec3, p: Vec3): Vec3 {
    center.Add(size.Scale(ChildIndex(center, p) as real - 0.5))
  }

  /** Inserts the payloads one after the other, each at its own position. */
  function InsertAll<T>(n: Node<T>, ds: seq<T>, pos: T -> Vec3): (r: Node<T>)
    requires WellFormed(n)
    ensures WellFormed(r)
    ensures r.center == n.center && r.size == n.size && r.capacity == n.capacity
    decreases |ds|
  {
    if ds == [] then n else InsertAll(Insert(n, pos(ds[0]), ds[0]), ds[1..], pos)
  }

  /** Grow on a leaf (Octree.cs:133-139, 156-171): a node of twice the size at
      GrowCenter receives the leaf's payloads again, each at `pos` of it. */
  function Grow<T>(n: Node<T>, p: Vec3, pos: T -> Vec3): (r: Node<T>)
    requires WellFormed(n) && !n.isSubdivided
    ensures WellFormed(r)
    ensures r.capacity == n.capacity
    ensures r.size == n.size.Scale(2.0) && r.center == GrowCenter(n.center, n.size, p)
  {
    InsertAll(Leaf(GrowCenter(n.center, n.size, p), n.size.Scale(2.0), n.capacity), n.data, pos)
  }

  /** How the growth loop of Update (Octree.cs:122-125) ends: the point is
      covered; Grow was reached on a subdivided root, where the source
      dereferences the null children of the new root (Octree.cs:148 or 152); or the
      model's bound on the number of growth steps ran out. */
  datatype GrowOutcome<T> =
    | Covered(tree: Node<T>)
    | NullChildren(tree: Node<T>)
    | FuelExhausted(tree: Node<T>)

  /** Grows the root until its bounds hold `p`, at most `fuel` times. */
  function GrowUntil<T>(n: Node<T>, p: Vec3, pos: T -> Vec3, fuel: nat): (g: GrowOutcome<T>)
    requires WellFormed(n)
    ensures WellFormed(g.tree)
    ensures g.Covered? ==> HasPoint(Bounds(g.tree.center, g.tree.size), p)
    ensures g.NullChildren? ==> g.tree.isSubdivided && !HasPoint(Bounds(g.tree.center, g.tree.size), p)
    decreases fuel
  {
    if HasPoint(Bounds(n.center, n.size), p) then Covered(n)
    else if n.isSubdivided then NullChildren(n)
    else if fuel == 0 then FuelExhausted(n)
    else GrowUntil(Grow(n, p, pos), p, pos, fuel - 1)
  }

  // --------------------------------------------------------------- update

  /** One element of the batch Update takes. */
  datatype Movement<T> = Movement(oldPoint: Vec3, newPoint: Vec3, data: T)

  /** How Update ends: every movement done, or the movement at `index`
      failed: its removal found nothing (InvalidOperationException,
      Octree.cs:116-119), Grow met a subdivided root, or growth ran out of fuel. */
  datatype UpdateStatus =
    | Done
    | RemoveFailed(index: nat)
    | GrowOnSubdivided(index: nat)
    | GrowthUnbounded(index: nat)

  /** Update (Octree.cs:109-131) from movement `k` on. */
  function UpdateFrom<T(==)>(n: Node<T>, ms: seq<Movement<T>>, k: nat, pos: T -> Vec3, fuel: nat)
    : (r: (Node<T>, UpdateStatus))
    requires WellFormed(n) && k <= |ms|
    ensures WellFormed(r.0)
    ensures !r.1.Done? ==> k <= r.1.index < |ms|
    decreases |ms| - k
  {
    if k == |ms| then (n, Done)
    else
      var m := ms[k];
      var (n1, removed) := Remove(n, m.oldPoint, m.data);
      if !removed then (n, RemoveFailed(k))
      else
        match GrowUntil(n1, m.newPoint, pos, fuel)
        case Covered(n2) => UpdateFrom(Insert(n2, m.newPoint, m.data), ms, k + 1, pos, fuel)
        case NullChildren(n2) => (n2, GrowOnSubdivided(k))
        case FuelExhausted(n2) => (n2, GrowthUnbounded(k))
  }

  function Update<T(==)>(n: Node<T>, ms: seq<Movement<T>>, pos: T -> Vec3, fuel: nat)
    : (r: (Node<T>, UpdateStatus))
    requires WellFormed(n)
    ensures WellFormed(r.0)
    ensures !r.1.Done? ==> r.1.index < |ms|
  {
    UpdateFrom(n, ms, 0, pos, fuel)
  }

  // ---------------------------------------------------------------- query

  /** Query (Octree.cs:239-262): nothing if the box misses the node's bounds;
      a subdivided node reports its children's results in child order and
      never its own list; a leaf reports its whole list when the list is not
      empty and the box holds the leaf's centre. */
  function Query<T>(n: Node<T>, box: Aabb): (r: seq<T>)
    ensures multiset(r) <= LeafPayloads(n)
    decreases n
  {
    if !Intersects(box, Bounds(n.center, n.size)) then []
    else if n.isSubdivided then QueryChildren(n.children, |n.children|, box)
    else if |n.data| > 0 && HasPoint(box, n.center) then n.data
    else []
  }

  /** The results of the first `k` children, in child order. */
  function QueryChildren<T>(cs: seq<Node<T>>, k: nat, box: Aabb): (r: seq<T>)
    requires k <= |cs|
    ensures multiset(r) <= ChildLeafPayloads(cs, k)
    decreases cs, k
  {
    if k == 0 then [] else QueryChildren(cs, k - 1, box) + Query(cs[k - 1], box)
  }

  // ---------------------------------------------------------- enumeration

  /** GetEnumerator (Octree.cs:265-284): for a subdivided node, the own lists of
      its children in child order, with no deeper descent; then the node's
      own list. */
  function Enumerate<T>(n: Node<T>): (r: seq<T>)
    ensures multiset(r) <= Payloads(n)
  {
    (if n.isSubdivided then ChildrenData(n.children, |n.children|) else []) + n.data
  }

  /** The own lists of the first `k` children, one after the other. */
  function ChildrenData<T>(cs: seq<Node<T>>, k: nat): (r: seq<T>)
    requires k <= |cs|
    ensures multiset(r) <= ChildPayloads(cs, k)
  {
    if k == 0 then [] else ChildrenData(cs, k - 1) + cs[k - 1].data
  }
}
