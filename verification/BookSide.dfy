/** One side of the order book: two crit-bit trees in one slab of nodes with a free list. */
module BookSides {
  import opened Options
  import opened OrderTrees

  const MAX_NODES: nat := 1024

  datatype Result<T> = Ok(value: T) | Err

  /** The node is meaningless when there are no leaves. */
  datatype Root = Root(maybeNode: nat, leafCount: nat)

  // ---- The slab ----

  ghost predicate FreeSlot(nodes: seq<Node>, free: seq<nat>, i: nat)
    requires i < |free|
  {
    && free[i] < |nodes|
    && if i + 1 < |free| then nodes[free[i]] == FreeNode(free[i + 1]) else nodes[free[i]].LastFreeNode?
  }

  ghost predicate FreeList(nodes: seq<Node>, head: nat, free: seq<nat>) {
    && (free != [] ==> head == free[0])
    && (forall i :: 0 <= i < |free| ==> FreeSlot(nodes, free, i))
    && (forall i, j :: 0 <= i < j < |free| ==> free[i] != free[j])
  }

  /** Every slot below the bump index is either taken or on the free list, never both. */
  ghost predicate Slab(nodes: seq<Node>, bump: nat, head: nat, free: seq<nat>, taken: set<nat>) {
    && bump <= |nodes| == MAX_NODES
    && FreeList(nodes, head, free)
    && (forall h :: h in taken ==> h < bump && h !in free)
    && (forall h :: h in free ==> h < bump)
    && |taken| + |free| == bump
  }

  lemma SlabFrame(nodes: seq<Node>, nodes': seq<Node>, bump: nat, head: nat, free: seq<nat>, taken: set<nat>)
    requires Slab(nodes, bump, head, free, taken) && |nodes'| == |nodes|
    requires forall h :: h in free && h < |nodes| ==> nodes'[h] == nodes[h]
    ensures Slab(nodes', bump, head, free, taken)
  {
    forall i | 0 <= i < |free| ensures FreeSlot(nodes', free, i) {
      assert FreeSlot(nodes, free, i) && free[i] in free;
    }
  }

  lemma AvailableIsNat(nodes: seq<Node>, bump: nat, head: nat, free: seq<nat>, taken: set<nat>)
    requires Slab(nodes, bump, head, free, taken)
    ensures |free| + MAX_NODES - bump >= 0
  {}

  lemma SlabInside(nodes: seq<Node>, nodes': seq<Node>, bump: nat, head: nat, free: seq<nat>, taken: set<nat>)
    requires Slab(nodes, bump, head, free, taken) && |nodes'| == |nodes|
    requires forall h :: 0 <= h < |nodes| && h !in taken ==> nodes'[h] == nodes[h]
    ensures Slab(nodes', bump, head, free, taken)
  {
    SlabFrame(nodes, nodes', bump, head, free, taken);
  }

  lemma SlabBump(nodes: seq<Node>, bump: nat, head: nat, taken: set<nat>, val: Node)
    requires Slab(nodes, bump, head, [], taken) && bump < MAX_NODES
    ensures bump !in taken && Slab(nodes[bump := val], bump + 1, head, [], taken + {bump})
  {}

  lemma SlabPop(nodes: seq<Node>, bump: nat, head: nat, free: seq<nat>, taken: set<nat>, val: Node)
    requires Slab(nodes, bump, head, free, taken) && free != []
    ensures head < |nodes| && FreeSlot(nodes, free, 0)
    ensures head !in taken && (nodes[head].FreeNode? || nodes[head].LastFreeNode?)
    ensures Slab(nodes[head := val], bump, nodes[head].next, free[1..], taken + {head})
  {
    assert FreeSlot(nodes, free, 0) && head in free;
    var nodes', rest := nodes[head := val], free[1..];
    forall i | 0 <= i < |rest| ensures FreeSlot(nodes', rest, i) {
      assert FreeSlot(nodes, free, i + 1);
    }
    assert forall h :: h in rest ==> h in free && h != head;
  }

  lemma SlabPush(nodes: seq<Node>, bump: nat, head: nat, free: seq<nat>, taken: set<nat>, h: nat)
    requires Slab(nodes, bump, head, free, taken) && h in taken
    ensures h < |nodes|
    ensures Slab(nodes[h := if free == [] then LastFreeNode(head) else FreeNode(head)], bump, h, [h] + free, taken - {h})
  {
    var nodes', more := nodes[h := if free == [] then LastFreeNode(head) else FreeNode(head)], [h] + free;
    forall i | 0 <= i < |more| ensures FreeSlot(nodes', more, i) {
      if i > 0 {
        assert FreeSlot(nodes, free, i - 1) && free[i - 1] in free;
      }
    }
    assert |taken - {h}| == |taken| - 1;
  }

  // ---- The trees ----

  ghost function OptHandles(o: Option<Tree>): set<nat> {
    if o.Some? then Handles(o.value) else {}
  }

  ghost function OptLeaves(o: Option<Tree>): set<Leaf> {
    if o.Some? then LeafSet(o.value) else {}
  }

  ghost predicate Good(nodes: seq<Node>, t: Tree) {
    Represents(nodes, t) && Distinct(t) && WellFormed(t)
  }

  ghost predicate TreeHeld(nodes: seq<Node>, root: Root, o: Option<Tree>) {
    match o
    case None => root.leafCount == 0
    case Some(t) => root == Root(t.handle, Count(t)) && Good(nodes, t)
  }

  ghost predicate ValidState(nodes: seq<Node>, bump: nat, head: nat, free: seq<nat>,
                             roots: seq<Root>, trees: seq<Option<Tree>>)
  {
    && |roots| == |trees| == 2
    && OptHandles(trees[0]) !! OptHandles(trees[1])
    && Slab(nodes, bump, head, free, OptHandles(trees[0]) + OptHandles(trees[1]))
    && TreeHeld(nodes, roots[0], trees[0])
    && TreeHeld(nodes, roots[1], trees[1])
  }

  /** Replacing the tree of one component. */
  lemma PutTree(nodes: seq<Node>, nodes': seq<Node>, bump: nat, head: nat, free: seq<nat>,
                roots: seq<Root>, trees: seq<Option<Tree>>, c: nat, root: Root, o: Option<Tree>)
    requires |roots| == |trees| == 2 && c < 2 && |nodes'| == |nodes|
    requires TreeHeld(nodes, roots[1 - c], trees[1 - c])
    requires forall h :: h in OptHandles(trees[1 - c]) && h < |nodes| ==> nodes'[h] == nodes[h]
    requires TreeHeld(nodes', root, o) && OptHandles(o) !! OptHandles(trees[1 - c])
    requires Slab(nodes', bump, head, free, OptHandles(o) + OptHandles(trees[1 - c]))
    ensures ValidState(nodes', bump, head, free, roots[c := root], trees[c := o])
  {
    hide TreeHeld, Slab, OptHandles;
    TreeHeldFrame(nodes, nodes', roots[1 - c], trees[1 - c]);
    assert OptHandles(o) + OptHandles(trees[1 - c]) == OptHandles(trees[1 - c]) + OptHandles(o);
  }

  lemma Component(nodes: seq<Node>, bump: nat, head: nat, free: seq<nat>,
                  roots: seq<Root>, trees: seq<Option<Tree>>, c: nat)
    requires ValidState(nodes, bump, head, free, roots, trees) && c < 2
    ensures TreeHeld(nodes, roots[c], trees[c])
    ensures trees[c].Some? ==> Good(nodes, trees[c].value) && roots[c] == Root(trees[c].value.handle, Count(trees[c].value))
    ensures trees[c].None? <==> roots[c].leafCount == 0
  {
    hide Good, Slab;
  }

  lemma TreeHeldFrame(nodes: seq<Node>, nodes': seq<Node>, root: Root, o: Option<Tree>)
    requires TreeHeld(nodes, root, o) && |nodes'| == |nodes|
    requires forall h :: h in OptHandles(o) && h < |nodes| ==> nodes'[h] == nodes[h]
    ensures TreeHeld(nodes', root, o)
  {
    if o.Some? { RepresentsFrame(nodes, nodes', o.value); }
  }

  /** The path to the hole in a tree that the slab holds. */
  ghost predicate GoodPath(nodes: seq<Node>, path: seq<Frame>, h: nat, expiry: nat) {
    Held(nodes, path, h, expiry) && DistinctPath(path) && WellFormedPath(path)
  }

  /** Taking a tree apart at a hole, and putting it together again. */
  lemma GoodParts(nodes: seq<Node>, path: seq<Frame>, t: Tree)
    ensures Good(nodes, Plug(path, t)) <==>
              && GoodPath(nodes, path, t.handle, Earliest(t)) && Good(nodes, t)
              && PathHandles(path) !! Handles(t) && AllFit(path, t)
  {
    hide Held, Represents, DistinctPath, WellFormedPath, Distinct, WellFormed, AllFit, Plug, PathHandles;
    PlugRepresents(nodes, path, t);
    PlugDistinct(path, t);
    PlugWellFormed(path, t);
  }

  /** From the tree before, the new subtree, and the updated path to the tree after. */
  lemma Reassemble(n0: seq<Node>, n1: seq<Node>, n2: seq<Node>, path: seq<Frame>, t: Tree, t': Tree)
    requires Good(n0, Plug(path, t)) && Good(n1, t')
    requires PathHandles(path) !! Handles(t') && AllFit(path, t')
    requires Held(n2, path, t'.handle, Earliest(t')) && |n2| == |n1|
    requires forall i :: 0 <= i < |n1| && i !in PathHandles(path) ==> n2[i] == n1[i]
    ensures Good(n2, Plug(path, t'))
  {
    hide Held, DistinctPath, WellFormedPath, AllFit, Plug, PathHandles;
    GoodParts(n0, path, t);
    GoodParts(n2, path, t');
    RepresentsFrame(n1, n2, t');
  }

  lemma SameKeys(path: seq<Frame>, t: Tree, t': Tree)
    requires AllFit(path, t) && t.Tip? && t'.Tip? && t.leaf.key == t'.leaf.key
    ensures AllFit(path, t')
  {
    assert t.leaf in LeafSet(t);
  }

  lemma {:induction false} PlugHandle(path: seq<Frame>, t: Tree)
    ensures Plug(path, t).handle == HandleAt(path, 0, t.handle)
  {
    if path != [] { PlugHandle(path[..|path| - 1], Join(path[|path| - 1], t)); }
  }

  /** A subtree was replaced by one in the same slots. */
  lemma PutReplaced(n0: seq<Node>, n2: seq<Node>, bump: nat, head: nat, free: seq<nat>,
                    roots: seq<Root>, trees: seq<Option<Tree>>, c: nat, path: seq<Frame>, t: Tree, t': Tree)
    requires ValidState(n0, bump, head, free, roots, trees) && c < 2 && trees[c] == Some(Plug(path, t))
    requires Good(n2, Plug(path, t')) && |n2| == |n0|
    requires t'.handle == t.handle && Handles(t') == Handles(t) && Count(t') == Count(t)
    requires forall i :: 0 <= i < |n0| && i !in Handles(Plug(path, t)) ==> n2[i] == n0[i]
    ensures ValidState(n2, bump, head, free, roots, trees[c := Some(Plug(path, t'))])
  {
    hide Good, Plug, FreeList, Handles, Count;
    var taken := OptHandles(trees[0]) + OptHandles(trees[1]);
    ReplacedSame(path, t, t');
    assert OptHandles(Some(Plug(path, t'))) == OptHandles(trees[c]);
    SlabFrame(n0, n2, bump, head, free, taken);
    assert TreeHeld(n2, roots[c], Some(Plug(path, t')));
    hide Slab, TreeHeld;
    assert OptHandles(trees[c]) + OptHandles(trees[1 - c]) == taken;
    PutTree(n0, n2, bump, head, free, roots, trees, c, roots[c], Some(Plug(path, t')));
    assert roots[c := roots[c]] == roots;
  }

  lemma ReplacedSame(path: seq<Frame>, t: Tree, t': Tree)
    requires t'.handle == t.handle && Handles(t') == Handles(t) && Count(t') == Count(t)
    ensures Handles(Plug(path, t')) == Handles(Plug(path, t)) && Count(Plug(path, t')) == Count(Plug(path, t))
    ensures Plug(path, t').handle == Plug(path, t).handle
  {
    hide Plug, Handles, Count;
    PlugSets(path, t);
    PlugSets(path, t');
    PlugHandle(path, t);
    PlugHandle(path, t');
    PlugCount(path, t, t');
  }

  lemma Taken(trees: seq<Option<Tree>>, c: nat)
    requires |trees| == 2 && c < 2 && trees[c].Some?
    ensures Handles(trees[c].value) <= OptHandles(trees[0]) + OptHandles(trees[1])
  {}

  lemma StoppedNode(nodes: seq<Node>, path: seq<Frame>, t: Tree, k: Key)
    requires Good(nodes, Plug(path, t)) && StopsAt(t, k)
    ensures t.handle < |nodes| && nodes[t.handle] == RootNode(t)
    ensures RootNode(t).Inner? || RootNode(t).LeafNode?
    ensures NodeKey(RootNode(t)) == RootKey(t) && NodeExpiry(RootNode(t)) == Earliest(t)
    ensures Shared(RootKey(t), k) < KEY_BITS
  {
    hide Plug;
    GoodParts(nodes, path, t);
  }

  /** The slab changed, but none of the taken slots. */
  lemma Undone(n0: seq<Node>, n2: seq<Node>, bump: nat, head: nat, free: seq<nat>,
               roots: seq<Root>, trees: seq<Option<Tree>>, taken: set<nat>)
    requires |roots| == |trees| == 2 && OptHandles(trees[0]) !! OptHandles(trees[1])
    requires taken == OptHandles(trees[0]) + OptHandles(trees[1])
    requires TreeHeld(n0, roots[0], trees[0]) && TreeHeld(n0, roots[1], trees[1])
    requires |n2| == |n0| && forall i :: 0 <= i < |n0| && i in taken ==> n2[i] == n0[i]
    requires Slab(n2, bump, head, free, taken)
    ensures ValidState(n2, bump, head, free, roots, trees)
  {
    hide TreeHeld, Slab, OptHandles;
    TreeHeldFrame(n0, n2, roots[0], trees[0]);
    TreeHeldFrame(n0, n2, roots[1], trees[1]);
  }

  lemma SplitRoot(t: Tree, leaf: Leaf, a: nat, b: nat)
    requires Shared(RootKey(t), leaf.key) < KEY_BITS
    ensures var p := Shared(RootKey(t), leaf.key);
            RootNode(Split(t, leaf, a, b))
            == if leaf.key[p] then Inner(p, leaf.key, b, a, Earliest(t), leaf.Expiry())
               else Inner(p, leaf.key, a, b, leaf.Expiry(), Earliest(t))
  {
    MovedSame(t, b);
  }

  /** The three slots that branching off writes. */
  ghost predicate BranchWrites(n0: seq<Node>, n3: seq<Node>, t: Tree, leaf: Leaf, a: nat, b: nat) {
    && |n3| == |n0| && a < |n0| && b < |n0| && t.handle < |n0| && Shared(RootKey(t), leaf.key) < KEY_BITS
    && n3[a] == LeafNode(leaf) && n3[b] == RootNode(t) && n3[t.handle] == RootNode(Split(t, leaf, a, b))
    && forall i :: 0 <= i < |n0| && i != a && i != b && i != t.handle ==> n3[i] == n0[i]
  }

  /** The new subtree. */
  lemma BranchedTree(n0: seq<Node>, n3: seq<Node>, t: Tree, leaf: Leaf, a: nat, b: nat)
    requires Good(n0, t) && StopsAt(t, leaf.key) && BranchWrites(n0, n3, t, leaf, a, b)
    requires a != b && a !in Handles(t) && b !in Handles(t)
    ensures Good(n3, Split(t, leaf, a, b))
  {
    hide StopsAt, Distinct, WellFormed;
    SplitWellFormed(t, leaf, a, b);
    SplitDistinct(t, leaf, a, b);
    RootIsHandle(t);
    MovedRepresents(n0, n3, t, b);
    assert Represents(n3, Tip(a, leaf));
  }

  /** The new subtree, and the path with the old expiry. */
  lemma Branched(n0: seq<Node>, n3: seq<Node>, path: seq<Frame>, t: Tree, leaf: Leaf, a: nat, b: nat)
    requires Good(n0, Plug(path, t)) && StopsAt(t, leaf.key) && BranchWrites(n0, n3, t, leaf, a, b)
    requires a != b && a !in Handles(Plug(path, t)) && b !in Handles(Plug(path, t))
    ensures Good(n3, Split(t, leaf, a, b))
    ensures PathHandles(path) !! Handles(Split(t, leaf, a, b))
    ensures Held(n3, path, t.handle, Earliest(t)) && DistinctPath(path)
  {
    hide Held, Plug, AllFit, StopsAt, DistinctPath, PathHandles, Split;
    GoodParts(n0, path, t);
    PlugSets(path, t);
    RootIsHandle(t);
    BranchedTree(n0, n3, t, leaf, a, b);
    HeldFrame(n0, n3, path, t.handle, Earliest(t));
    SplitDistinct(t, leaf, a, b);
  }

  lemma SplitFits(path: seq<Frame>, t: Tree, leaf: Leaf, a: nat, b: nat)
    requires AllFit(path, t) && Fits(path, leaf.key) && WellFormed(t) && StopsAt(t, leaf.key)
    ensures AllFit(path, Split(t, leaf, a, b))
  {
    hide Fits, StopsAt, WellFormed;
    SplitWellFormed(t, leaf, a, b);
  }

  /** The tree with the leaf added and the path updated. */
  lemma BranchedHeld(n0: seq<Node>, n3: seq<Node>, n4: seq<Node>, root: Root, path: seq<Frame>, t: Tree, leaf: Leaf, a: nat, b: nat)
    requires TreeHeld(n0, root, Some(Plug(path, t))) && StopsAt(t, leaf.key) && Fits(path, leaf.key)
    requires Good(n3, Split(t, leaf, a, b)) && PathHandles(path) !! Handles(Split(t, leaf, a, b))
    requires Held(n4, path, t.handle, Min(Earliest(t), leaf.Expiry())) && |n4| == |n3|
    requires forall i :: 0 <= i < |n3| && i !in PathHandles(path) ==> n4[i] == n3[i]
    ensures TreeHeld(n4, Root(root.maybeNode, root.leafCount + 1), Some(Plug(path, Split(t, leaf, a, b))))
  {
    hide Held, Plug, AllFit, Fits, DistinctPath, PathHandles, Good;
    var t' := Split(t, leaf, a, b);
    GoodParts(n0, path, t);
    SplitWellFormedIn(n0, t, leaf, a, b);
    SplitFits(path, t, leaf, a, b);
    Reassemble(n0, n3, n4, path, t, t');
    PlugHandle(path, t);
    PlugHandle(path, t');
    PlugCount(path, t, t');
  }

  lemma SplitWellFormedIn(nodes: seq<Node>, t: Tree, leaf: Leaf, a: nat, b: nat)
    requires Good(nodes, t) && StopsAt(t, leaf.key)
    ensures WellFormed(t) && Count(Split(t, leaf, a, b)) == Count(t) + 1
    ensures Earliest(Split(t, leaf, a, b)) == Min(Earliest(t), leaf.Expiry())
  {
    hide StopsAt;
    SplitWellFormed(t, leaf, a, b);
  }

  lemma BranchedHandles(nodes: seq<Node>, path: seq<Frame>, t: Tree, leaf: Leaf, a: nat, b: nat)
    requires Good(nodes, Plug(path, t)) && Shared(RootKey(t), leaf.key) < KEY_BITS
    requires a != b && a !in Handles(Plug(path, t)) && b !in Handles(Plug(path, t))
    ensures Handles(Plug(path, Split(t, leaf, a, b))) == Handles(Plug(path, t)) + {a} + {b}
    ensures PathHandles(path) <= Handles(Plug(path, t)) && t.handle in Handles(Plug(path, t))
  {
    hide Plug, Split, Represents;
    PlugSets(path, t);
    PlugSets(path, Split(t, leaf, a, b));
    PlugDistinct(path, t);
    SplitDistinct(t, leaf, a, b);
    RootIsHandle(t);
  }

  /** A leaf was added to one component. */
  lemma PutBranched(n0: seq<Node>, n3: seq<Node>, n4: seq<Node>, bump: nat, head: nat, free: seq<nat>,
                    roots: seq<Root>, trees: seq<Option<Tree>>, c: nat,
                    path: seq<Frame>, t: Tree, leaf: Leaf, a: nat, b: nat)
    requires |roots| == |trees| == 2 && OptHandles(trees[0]) !! OptHandles(trees[1])
    requires TreeHeld(n0, roots[0], trees[0]) && TreeHeld(n0, roots[1], trees[1])
    requires c < 2 && trees[c] == Some(Plug(path, t)) && BranchWrites(n0, n3, t, leaf, a, b)
    requires TreeHeld(n4, Root(roots[c].maybeNode, roots[c].leafCount + 1), Some(Plug(path, Split(t, leaf, a, b))))
    requires |n4| == |n3| && forall i :: 0 <= i < |n3| && i !in PathHandles(path) ==> n4[i] == n3[i]
    requires a != b && a !in OptHandles(trees[0]) + OptHandles(trees[1]) && b !in OptHandles(trees[0]) + OptHandles(trees[1])
    requires Slab(n4, bump, head, free, OptHandles(trees[0]) + OptHandles(trees[1]) + {a} + {b})
    ensures ValidState(n4, bump, head, free, roots[c := Root(roots[c].maybeNode, roots[c].leafCount + 1)],
                       trees[c := Some(Plug(path, Split(t, leaf, a, b)))])
  {
    hide Plug, Split, Slab, Good, PathHandles, RootNode;
    BranchedHandles(n0, path, t, leaf, a, b);
    var o := Some(Plug(path, Split(t, leaf, a, b)));
    assert OptHandles(o) == OptHandles(trees[c]) + {a} + {b};
    assert OptHandles(o) + OptHandles(trees[1 - c]) == OptHandles(trees[0]) + OptHandles(trees[1]) + {a} + {b};
    PutTree(n0, n4, bump, head, free, roots, trees, c, Root(roots[c].maybeNode, roots[c].leafCount + 1), o);
  }

  lemma BranchDone(n0: seq<Node>, n2: seq<Node>, n4: seq<Node>, bump: nat, head: nat, free: seq<nat>,
                   roots: seq<Root>, trees: seq<Option<Tree>>, c: nat, taken: set<nat>,
                   path: seq<Frame>, t: Tree, leaf: Leaf, a: nat, b: nat)
    requires |roots| == |trees| == 2 && c < 2 && OptHandles(trees[0]) !! OptHandles(trees[1])
    requires taken == OptHandles(trees[0]) + OptHandles(trees[1])
    requires TreeHeld(n0, roots[0], trees[0]) && TreeHeld(n0, roots[1], trees[1])
    requires TreeHeld(n0, roots[c], trees[c]) && trees[c] == Some(Plug(path, t))
    requires PathHandles(path) <= taken && t.handle in taken && t.handle < |n2|
    requires StopsAt(t, leaf.key) && Fits(path, leaf.key) && a != b && a !in taken && b !in taken
    requires Slab(n2, bump, head, free, taken + {a} + {b}) && |n4| == |n2| == |n0|
    requires var n3 := n2[t.handle := RootNode(Split(t, leaf, a, b))];
             && BranchWrites(n0, n3, t, leaf, a, b)
             && Good(n3, Split(t, leaf, a, b)) && PathHandles(path) !! Handles(Split(t, leaf, a, b))
             && Held(n4, path, t.handle, Min(Earliest(t), leaf.Expiry()))
             && forall i :: 0 <= i < |n4| && i !in PathHandles(path) ==> n4[i] == n3[i]
    ensures ValidState(n4, bump, head, free, roots[c := Root(roots[c].maybeNode, roots[c].leafCount + 1)],
                       trees[c := Some(Plug(path, Split(t, leaf, a, b)))])
  {
    hide Held, Plug, PathHandles, OptHandles, Fits, Good, TreeHeld, BranchWrites, Slab, RootNode, ValidState, Split, Handles;
    var n3 := n2[t.handle := RootNode(Split(t, leaf, a, b))];
    SlabInside(n2, n4, bump, head, free, taken + {a} + {b});
    BranchedHeld(n0, n3, n4, roots[c], path, t, leaf, a, b);
    PutBranched(n0, n3, n4, bump, head, free, roots, trees, c, path, t, leaf, a, b);
  }

  /** The slots an insertion needs. */
  ghost function SlotsFor(orders: set<Leaf>, k: Key): nat {
    if orders == {} then 1 else if Without(orders, k) == orders then 2 else 0
  }

  lemma NoLeaves(k: Key)
    ensures Without({}, k) == {} && SlotsFor({}, k) == 1
  {}

  lemma ReplacedLeaves(nodes: seq<Node>, path: seq<Frame>, t: Tree, leaf: Leaf)
    requires Good(nodes, Plug(path, t)) && t.Tip? && t.leaf.key == leaf.key
    ensures LeafSet(Plug(path, Tip(t.handle, leaf))) == Without(LeafSet(Plug(path, t)), leaf.key) + {leaf}
    ensures t.leaf in LeafSet(Plug(path, t)) && SlotsFor(LeafSet(Plug(path, t)), leaf.key) == 0
  {
    hide Plug, Represents, PathLeaves, PathHandles, Fits, Leads;
    GoodParts(nodes, path, t);
    PlugSets(path, t);
    PlugSets(path, Tip(t.handle, leaf));
    assert Fits(path, leaf.key) by { assert t.leaf in LeafSet(t); }
    FitsLeads(path, leaf.key);
    WithoutOnPath(path, t, leaf.key);
    assert t.leaf !in Without(LeafSet(Plug(path, t)), leaf.key);
  }

  lemma BranchedLeaves(nodes: seq<Node>, path: seq<Frame>, t: Tree, leaf: Leaf)
    requires Good(nodes, Plug(path, t)) && StopsAt(t, leaf.key) && Fits(path, leaf.key)
    ensures var all := LeafSet(Plug(path, t));
            && Without(all, leaf.key) == all && SlotsFor(all, leaf.key) == 2
            && forall a, b :: LeafSet(Plug(path, Split(t, leaf, a, b))) == all + {leaf}
  {
    hide Plug, Represents, PathLeaves, PathHandles, Fits, Leads, Split, LeafSet;
    GoodParts(nodes, path, t);
    PlugSets(path, t);
    SplitWellFormed(t, leaf, 0, 0);
    FitsLeads(path, leaf.key);
    WithoutOnPath(path, t, leaf.key);
    forall a, b ensures LeafSet(Plug(path, Split(t, leaf, a, b))) == LeafSet(Plug(path, t)) + {leaf} {
      SplitWellFormed(t, leaf, a, b);
      PlugSets(path, Split(t, leaf, a, b));
    }
    assert EarliestLeaf(t) in LeafSet(t);
  }

  lemma TipNode(nodes: seq<Node>, path: seq<Frame>, t: Tree)
    requires Good(nodes, Plug(path, t)) && t.Tip?
    ensures t.handle < |nodes| && nodes[t.handle] == LeafNode(t.leaf)
  {
    hide Plug;
    GoodParts(nodes, path, t);
  }

  lemma SplitNode(nodes: seq<Node>, path: seq<Frame>, t: Tree, leaf: Leaf, a: nat, b: nat)
    requires StopsAt(t, leaf.key) && Good(nodes, Plug(path, Split(t, leaf, a, b)))
    ensures a < |nodes| && nodes[a] == LeafNode(leaf)
  {
    hide Plug;
    GoodParts(nodes, path, Split(t, leaf, a, b));
    assert Represents(nodes, Tip(a, leaf));
  }

  lemma LeadsNowhere(t: Tree, k: Key)
    ensures Plug([], t) == t && Leads([], k)
  {}

  lemma LeadsDown(path: seq<Frame>, f: Frame, t: Tree, k: Key)
    requires Leads(path, k) && f.prefixLen < KEY_BITS && k[f.prefixLen] == f.dir
    ensures Plug(path + [f], t) == Plug(path, Join(f, t)) && Leads(path + [f], k)
  {
    assert (path + [f])[..|path|] == path;
  }

  lemma FoundLeaf(nodes: seq<Node>, path: seq<Frame>, t: Tree, k: Key)
    requires Good(nodes, Plug(path, t)) && t.Tip? && Leads(path, k)
    ensures var all := LeafSet(Plug(path, t));
            && t.leaf in all
            && (t.leaf.key != k ==> Without(all, k) == all)
            && (t.leaf.key == k ==> Without(all, k) == PathLeaves(path))
    ensures path == [] ==> Plug(path, t) == t
    ensures path != [] ==> LeafSet(Collapsed(path)) == PathLeaves(path)
  {
    if path != [] {
      var n := |path| - 1;
      PlugSets(path[..n], Moved(path[n].sibling, path[n].handle));
      MovedSame(path[n].sibling, path[n].handle);
    }
    hide PathLeaves, Leads, LeafSet;
    PlugSets(path, t);
    WithoutOnPath(path, t, k);
    assert LeafSet(t) == {t.leaf} by { LeafSetOfTip(t); }
  }

  lemma WithoutAny(orders: set<Leaf>, k: Key)
    requires exists x :: x in orders && x.key == k
    ensures Without(orders, k) != orders
  {
    var x :| x in orders && x.key == k;
    assert x !in Without(orders, k);
  }

  lemma LeafSetOfTip(t: Tree)
    requires t.Tip?
    ensures LeafSet(t) == {t.leaf}
  {}

  /** The tree without the leaf in the hole: the sibling takes its parent's slot. */
  function Collapsed(path: seq<Frame>): Tree
    requires path != []
  {
    var f := path[|path| - 1];
    Plug(path[..|path| - 1], Moved(f.sibling, f.handle))
  }

  lemma Slotted(nodes: seq<Node>, bump: nat, head: nat, free: seq<nat>, roots: seq<Root>, trees: seq<Option<Tree>>)
    requires ValidState(nodes, bump, head, free, roots, trees)
    ensures |roots| == |trees| == 2 && OptHandles(trees[0]) !! OptHandles(trees[1])
    ensures Slab(nodes, bump, head, free, OptHandles(trees[0]) + OptHandles(trees[1])) && |nodes| == MAX_NODES
    ensures TreeHeld(nodes, roots[0], trees[0]) && TreeHeld(nodes, roots[1], trees[1])
  {
    hide FreeList, TreeHeld, OptHandles;
  }

  /** The slots that collapsing a leaf's parent touches. */
  lemma CollapseSlots(nodes: seq<Node>, path: seq<Frame>, child: nat, leaf: Leaf)
    requires Good(nodes, Plug(path, Tip(child, leaf))) && path != []
    ensures var f, all := path[|path| - 1], Handles(Plug(path, Tip(child, leaf)));
            var other := f.sibling.handle;
            && f.handle in all && other in all && child in all
            && f.handle != other && f.handle != child && other != child
            && f.handle < |nodes| && nodes[f.handle] == FrameNode(f, child, leaf.Expiry())
            && other < |nodes| && nodes[other] == RootNode(f.sibling) && child < |nodes|
            && DistinctPath(path)
  {
    var n, t := |path| - 1, Tip(child, leaf);
    hide Plug, WellFormed, WellFormedPath, AllFit, ExpiryAt;
    GoodParts(nodes, path, t);
    PlugSets(path, t);
    RootIsHandle(path[n].sibling);
    assert FrameHeld(nodes, path[n], child, leaf.Expiry()) by {
      ExpiryAtEnd(path, leaf.Expiry());
      assert FrameHeld(nodes, path[n], HandleAt(path, n + 1, child), ExpiryAt(path, n + 1, leaf.Expiry()));
    }
  }

  ghost predicate CollapseWrites(n0: seq<Node>, n1: seq<Node>, path: seq<Frame>, child: nat)
    requires path != []
  {
    var f := path[|path| - 1];
    && |n1| == |n0| && f.handle < |n0| && n1[f.handle] == RootNode(f.sibling)
    && forall i :: 0 <= i < |n0| && i != f.handle && i != f.sibling.handle && i != child ==> n1[i] == n0[i]
  }

  lemma Collapses(path: seq<Frame>, t: Tree)
    requires path != []
    ensures Plug(path, t) == Plug(path[..|path| - 1], Join(path[|path| - 1], t))
  {}

  /** The parts of the tree below the collapsed parent. */
  lemma CollapsedParts(nodes: seq<Node>, path: seq<Frame>, child: nat, leaf: Leaf)
    requires Good(nodes, Plug(path, Tip(child, leaf))) && path != []
    ensures var init, f := path[..|path| - 1], path[|path| - 1];
            && Good(nodes, f.sibling) && f.handle !in Handles(f.sibling) && child !in Handles(f.sibling)
            && PathHandles(init) !! Handles(f.sibling) && f.handle !in PathHandles(init) && child !in PathHandles(init)
            && f.handle != child && AllFit(init, f.sibling)
            && Held(nodes, init, f.handle, Min(Earliest(f.sibling), leaf.Expiry())) && DistinctPath(init)
  {
    var init, f := path[..|path| - 1], path[|path| - 1];
    var t := Join(f, Tip(child, leaf));
    Collapses(path, Tip(child, leaf));
    hide Plug, DistinctPath, Held, WellFormedPath, PathHandles, Fits;
    GoodParts(nodes, init, t);
    JoinRepresents(nodes, f, Tip(child, leaf));
    assert LeafSet(f.sibling) <= LeafSet(t);
  }

  lemma CollapsedTree(n0: seq<Node>, n1: seq<Node>, path: seq<Frame>, child: nat, leaf: Leaf)
    requires Good(n0, Plug(path, Tip(child, leaf))) && path != [] && CollapseWrites(n0, n1, path, child)
    ensures var init, f := path[..|path| - 1], path[|path| - 1];
            var t := Moved(f.sibling, f.handle);
            && Good(n1, t) && PathHandles(init) !! Handles(t) && AllFit(init, t)
            && Held(n1, init, f.handle, Min(Earliest(f.sibling), leaf.Expiry())) && DistinctPath(init)
  {
    hide Plug, DistinctPath, Held, PathHandles, Fits, Distinct, WellFormed;
    var init, f := path[..|path| - 1], path[|path| - 1];
    CollapsedParts(n0, path, child, leaf);
    RootIsHandle(f.sibling);
    MovedSame(f.sibling, f.handle);
    MovedRepresents(n0, n1, f.sibling, f.handle);
    HeldFrame(n0, n1, init, f.handle, Min(Earliest(f.sibling), leaf.Expiry()));
  }

  lemma JoinHandles(f: Frame, child: nat, leaf: Leaf)
    ensures Handles(Join(f, Tip(child, leaf))) == {f.handle} + {child} + Handles(f.sibling)
    ensures Count(Join(f, Tip(child, leaf))) == Count(f.sibling) + 1
  {}

  lemma CollapseSets(above: set<nat>, sib: set<nat>, parent: nat, child: nat, other: nat)
    requires above !! sib && parent !in above && child !in above && parent !in sib && child !in sib
    requires other in sib && parent != child
    ensures above + (sib - {other} + {parent}) == above + ({parent} + {child} + sib) - {other} - {child}
  {}

  lemma SetsWithout(a: set<nat>, b: set<nat>, x: nat, y: nat)
    requires a !! b && x in a && y in a
    ensures (a - {x} - {y}) + b == (a + b) - {x} - {y} == (b + a) - {x} - {y}
    ensures (a - {x} - {y}) !! b
  {}

  lemma CollapsedHandles(nodes: seq<Node>, path: seq<Frame>, child: nat, leaf: Leaf)
    requires Good(nodes, Plug(path, Tip(child, leaf))) && path != []
    ensures var f := path[|path| - 1];
            && Handles(Collapsed(path)) == Handles(Plug(path, Tip(child, leaf))) - {f.sibling.handle} - {child}
            && PathHandles(path[..|path| - 1]) <= Handles(Collapsed(path))
  {
    var init, f := path[..|path| - 1], path[|path| - 1];
    var t, t' := Join(f, Tip(child, leaf)), Moved(f.sibling, f.handle);
    CollapsedParts(nodes, path, child, leaf);
    Collapses(path, Tip(child, leaf));
    hide Plug, Held, PathHandles, WellFormed, Represents, Handles, AllFit;
    JoinHandles(f, child, leaf);
    PlugSets(init, t);
    PlugSets(init, t');
    RootIsHandle(f.sibling);
    MovedSame(f.sibling, f.handle);
    CollapseSets(PathHandles(init), Handles(f.sibling), f.handle, child, f.sibling.handle);
  }

  lemma CollapsedCount(path: seq<Frame>, child: nat, leaf: Leaf)
    requires path != []
    ensures Count(Collapsed(path)) == Count(Plug(path, Tip(child, leaf))) - 1
    ensures Collapsed(path).handle == Plug(path, Tip(child, leaf)).handle
  {
    var init, f := path[..|path| - 1], path[|path| - 1];
    var t, t' := Join(f, Tip(child, leaf)), Moved(f.sibling, f.handle);
    Collapses(path, Tip(child, leaf));
    hide Plug;
    JoinHandles(f, child, leaf);
    MovedSame(f.sibling, f.handle);
    PlugHandle(init, t);
    PlugHandle(init, t');
    PlugCount(init, t, t');
  }

  lemma CollapsedHeld(n0: seq<Node>, n1: seq<Node>, n2: seq<Node>, root: Root, path: seq<Frame>, child: nat, leaf: Leaf)
    requires path != [] && TreeHeld(n0, root, Some(Plug(path, Tip(child, leaf))))
    requires CollapseWrites(n0, n1, path, child) && |n2| == |n1|
    requires var init, f := path[..|path| - 1], path[|path| - 1];
             && Held(n2, init, f.handle, Earliest(f.sibling))
             && (forall i :: 0 <= i < |n1| && i !in PathHandles(init) ==> n2[i] == n1[i])
    ensures root.leafCount > 0
    ensures TreeHeld(n2, Root(root.maybeNode, root.leafCount - 1), Some(Collapsed(path)))
  {
    var init, f := path[..|path| - 1], path[|path| - 1];
    Collapses(path, Tip(child, leaf));
    hide Plug, Held, Good, PathHandles, RootNode, Handles, AllFit, CollapseWrites;
    CollapsedTree(n0, n1, path, child, leaf);
    MovedSame(f.sibling, f.handle);
    Reassemble(n0, n1, n2, init, Join(f, Tip(child, leaf)), Moved(f.sibling, f.handle));
    CollapsedCount(path, child, leaf);
  }

  lemma CollapsedTaken(nodes: seq<Node>, trees: seq<Option<Tree>>, c: nat, taken: set<nat>,
                       path: seq<Frame>, child: nat, leaf: Leaf)
    requires |trees| == 2 && c < 2 && path != [] && OptHandles(trees[0]) !! OptHandles(trees[1])
    requires taken == OptHandles(trees[0]) + OptHandles(trees[1])
    requires trees[c] == Some(Plug(path, Tip(child, leaf))) && Good(nodes, Plug(path, Tip(child, leaf)))
    ensures var f, o := path[|path| - 1], Some(Collapsed(path));
            && OptHandles(o) + OptHandles(trees[1 - c]) == taken - {f.sibling.handle} - {child}
            && OptHandles(o) !! OptHandles(trees[1 - c])
            && PathHandles(path[..|path| - 1]) <= OptHandles(o)
            && f.handle !in OptHandles(trees[1 - c]) && f.sibling.handle !in OptHandles(trees[1 - c])
            && child !in OptHandles(trees[1 - c])
  {
    hide Plug, Good, Collapsed, PathHandles, RootNode, FrameNode, Handles;
    CollapsedHandles(nodes, path, child, leaf);
    CollapseSlots(nodes, path, child, leaf);
    SetsWithout(OptHandles(trees[c]), OptHandles(trees[1 - c]), path[|path| - 1].sibling.handle, child);
  }

  lemma OthersKept(n0: seq<Node>, n1: seq<Node>, n2: seq<Node>, taken: set<nat>, others: set<nat>, path: seq<Frame>, child: nat)
    requires path != [] && CollapseWrites(n0, n1, path, child) && |n2| == |n1|
    requires PathHandles(path[..|path| - 1]) !! others
    requires path[|path| - 1].handle !in others && path[|path| - 1].sibling.handle !in others && child !in others
    requires forall i :: 0 <= i < |n1| && i !in PathHandles(path[..|path| - 1]) ==> n2[i] == n1[i]
    ensures |n2| == |n0| && forall h :: h in others && h < |n0| ==> n2[h] == n0[h]
  {
    hide PathHandles;
  }

  /** Slots after the collapse. */
  lemma CollapsedSlab(n0: seq<Node>, n1: seq<Node>, n2: seq<Node>, bump: nat, head: nat, free: seq<nat>,
                      trees: seq<Option<Tree>>, c: nat, taken: set<nat>, path: seq<Frame>, child: nat, leaf: Leaf)
    requires |trees| == 2 && c < 2 && path != [] && OptHandles(trees[0]) !! OptHandles(trees[1])
    requires taken == OptHandles(trees[0]) + OptHandles(trees[1])
    requires trees[c] == Some(Plug(path, Tip(child, leaf))) && Good(n0, Plug(path, Tip(child, leaf)))
    requires CollapseWrites(n0, n1, path, child) && |n2| == |n1|
    requires forall i :: 0 <= i < |n1| && i !in PathHandles(path[..|path| - 1]) ==> n2[i] == n1[i]
    requires Slab(n1, bump, head, free, taken - {path[|path| - 1].sibling.handle} - {child})
    ensures OptHandles(Some(Collapsed(path))) !! OptHandles(trees[1 - c])
    ensures Slab(n2, bump, head, free, OptHandles(Some(Collapsed(path))) + OptHandles(trees[1 - c]))
    ensures |n2| == |n0| && forall h :: h in OptHandles(trees[1 - c]) && h < |n0| ==> n2[h] == n0[h]
  {
    var f := path[|path| - 1];
    hide Plug, Good, Slab, Collapsed, PathHandles, OptHandles, CollapseWrites;
    CollapsedTaken(n0, trees, c, taken, path, child, leaf);
    SlabInside(n1, n2, bump, head, free, taken - {f.sibling.handle} - {child});
    OthersKept(n0, n1, n2, taken, OptHandles(trees[1 - c]), path, child);
  }

  /** The slab after the collapse. */
  lemma CollapseDone(n0: seq<Node>, n1: seq<Node>, n2: seq<Node>, bump: nat, head: nat, free: seq<nat>,
                     roots: seq<Root>, trees: seq<Option<Tree>>, c: nat, taken: set<nat>,
                     path: seq<Frame>, child: nat, leaf: Leaf)
    requires |roots| == |trees| == 2 && c < 2 && OptHandles(trees[0]) !! OptHandles(trees[1]) && path != []
    requires taken == OptHandles(trees[0]) + OptHandles(trees[1])
    requires TreeHeld(n0, roots[0], trees[0]) && TreeHeld(n0, roots[1], trees[1])
    requires trees[c] == Some(Plug(path, Tip(child, leaf))) && CollapseWrites(n0, n1, path, child) && |n2| == |n1|
    requires var init, f := path[..|path| - 1], path[|path| - 1];
             && Held(n2, init, f.handle, Earliest(f.sibling))
             && (forall i :: 0 <= i < |n1| && i !in PathHandles(init) ==> n2[i] == n1[i])
             && Slab(n1, bump, head, free, taken - {f.sibling.handle} - {child})
    ensures roots[c].leafCount > 0
    ensures ValidState(n2, bump, head, free, roots[c := Root(roots[c].maybeNode, roots[c].leafCount - 1)],
                       trees[c := Some(Collapsed(path))])
  {
    hide Plug, Held, Good, Slab, Collapsed, PathHandles, ValidState, OptHandles, CollapseWrites;
    CollapsedHeld(n0, n1, n2, roots[c], path, child, leaf);
    assert Good(n0, Plug(path, Tip(child, leaf)));
    hide TreeHeld;
    CollapsedSlab(n0, n1, n2, bump, head, free, trees, c, taken, path, child, leaf);
    PutTree(n0, n2, bump, head, free, roots, trees, c, Root(roots[c].maybeNode, roots[c].leafCount - 1), Some(Collapsed(path)));
  }

  lemma OnlyThat(t: Tree, x: Leaf)
    requires WellFormed(t) && x in LeafSet(t)
    ensures Without(LeafSet(t), x.key) == LeafSet(t) - {x}
    ensures forall y :: y in LeafSet(t) && y.key == x.key ==> y == x
  {
    forall y | y in LeafSet(t) && y.key == x.key ensures y == x {
      KeysDiffer(t, x, y);
    }
  }

  function SlotsOf(n: nat): nat {
    if n == 0 then 0 else 2 * n - 1
  }

  function Max(a: int, b: int): int {
    if a < b then b else a
  }

  lemma OptSlots(nodes: seq<Node>, root: Root, o: Option<Tree>)
    requires TreeHeld(nodes, root, o)
    ensures |OptHandles(o)| == SlotsOf(|OptLeaves(o)|) && root.leafCount == |OptLeaves(o)|
  {
    if o.Some? {
      HandleCount(o.value);
      LeafCount(o.value);
    }
  }

  /** No slot is ever lost: how many are left depends only on how many orders there are. */
  lemma NothingLeaks(nodes: seq<Node>, bump: nat, head: nat, free: seq<nat>, roots: seq<Root>, trees: seq<Option<Tree>>)
    requires ValidState(nodes, bump, head, free, roots, trees)
    ensures |free| + MAX_NODES - bump
            == MAX_NODES - SlotsOf(|OptLeaves(trees[0])|) - SlotsOf(|OptLeaves(trees[1])|)
    ensures roots[0].leafCount == |OptLeaves(trees[0])| && roots[1].leafCount == |OptLeaves(trees[1])|
  {
    OptSlots(nodes, roots[0], trees[0]);
    OptSlots(nodes, roots[1], trees[1]);
    assert |OptHandles(trees[0]) + OptHandles(trees[1])| == |OptHandles(trees[0])| + |OptHandles(trees[1])|;
  }

  type Stack = seq<(nat, bool)>

  ghost predicate Follows(stack: Stack, path: seq<Frame>) {
    |stack| == |path| && forall i :: 0 <= i < |path| ==> stack[i] == (path[i].handle, path[i].dir)
  }

  function NodeKey(n: Node): Key
    requires n.Inner? || n.LeafNode?
  {
    if n.Inner? then n.key else n.leaf.key
  }

  function NodeExpiry(n: Node): nat
    requires n.Inner? || n.LeafNode?
  {
    if n.Inner? then Min(n.leftExpiry, n.rightExpiry) else n.leaf.Expiry()
  }

  function Child(n: Node, right: bool): nat
    requires n.Inner?
  {
    if right then n.right else n.left
  }

  /** The frame of a fork when the path goes on to one of its children. */
  function FrameTo(t: Tree, right: bool): Frame
    requires t.Fork?
  {
    Frame(t.handle, t.prefixLen, t.key, right, if right then t.left else t.right)
  }

  lemma PlugNothing(t: Tree, k: Key)
    ensures Plug([], t) == t && Fits([], k)
  {}

  lemma PlugDown(path: seq<Frame>, f: Frame, t: Tree, k: Key)
    ensures Plug(path + [f], t) == Plug(path, Join(f, t))
    ensures Fits(path + [f], k) <==> Fits(path, k) && FitsFrame(f, k)
  {
    assert (path + [f])[..|path|] == path;
    FitsLast(path + [f], k);
  }

  lemma RootNodeFacts(t: Tree)
    ensures RootNode(t).Inner? || RootNode(t).LeafNode?
    ensures NodeKey(RootNode(t)) == RootKey(t) && NodeExpiry(RootNode(t)) == Earliest(t)
  {}

  /** Fewer than two slots are left, or exactly two of which one was never taken yet: the last one,
      so that the other one is on the free list. */
  predicate Full(slots: nat, bump: nat) {
    slots + 2 > MAX_NODES || (slots + 2 == MAX_NODES && bump == MAX_NODES - 1)
  }

  class BookSide {
    /** The fixed-price tree's root and the oracle-pegged one's. */
    var roots: seq<Root>
    var bumpIndex: nat
    var freeListLen: nat
    var freeListHead: nat
    const nodes: array<Node>

    ghost var trees: seq<Option<Tree>>
    ghost var free: seq<nat>

    ghost predicate SlabHeld(taken: set<nat>)
      reads this, nodes
    {
      Slab(nodes[..], bumpIndex, freeListHead, free, taken) && freeListLen == |free|
    }

    ghost predicate Valid()
      reads this, nodes
      ensures Valid() ==> |trees| == |roots| == 2
    {
      ValidState(nodes[..], bumpIndex, freeListHead, free, roots, trees) && freeListLen == |free|
    }

    /** The orders in a tree. */
    ghost function Orders(c: nat): set<Leaf>
      requires c < |trees|
      reads this
    {
      OptLeaves(trees[c])
    }

    /** Slots that are not taken. */
    ghost function Available(): int
      reads this
    {
      |free| + MAX_NODES - bumpIndex
    }

    /** A zeroed account. */
    constructor ()
      ensures Valid() && Orders(0) == Orders(1) == {} && bumpIndex == 0 && fresh(nodes)
    {
      roots := [Root(0, 0), Root(0, 0)];
      bumpIndex, freeListLen, freeListHead := 0, 0, 0;
      nodes := new Node[MAX_NODES](_ => Uninitialized);
      trees, free := [None, None], [];
    }

    /** Takes a slot for a node, from the free list if possible. */
    method InsertNode(val: Node, ghost taken: set<nat>) returns (r: Option<nat>)
      requires SlabHeld(taken) && (val.Inner? || val.LeafNode?)
      modifies this`bumpIndex, this`freeListLen, this`freeListHead, this`free, nodes
      ensures r.None? <==> old(Available()) == 0
      ensures r.None? ==> unchanged(this) && nodes[..] == old(nodes[..])
      ensures r.Some? ==>
                && r.value !in taken && r.value < nodes.Length
                && nodes[..] == old(nodes[..])[r.value := val]
                && SlabHeld(taken + {r.value})
                && Available() == old(Available()) - 1
                && bumpIndex == Max(old(bumpIndex), MAX_NODES - Available())
    {
      if freeListLen == 0 {
        if bumpIndex >= nodes.Length {
          return None;
        }
        SlabBump(nodes[..], bumpIndex, freeListHead, taken, val);
        nodes[bumpIndex] := val;
        assert nodes[..] == old(nodes[..])[bumpIndex := val];
        bumpIndex := bumpIndex + 1;
        return Some(bumpIndex - 1);
      }
      SlabPop(nodes[..], bumpIndex, freeListHead, free, taken, val);
      var key := freeListHead;
      var node := nodes[key];
      assert if node.FreeNode? then freeListLen > 1 else freeListLen == 1;
      freeListHead := node.next;
      freeListLen := freeListLen - 1;
      free := free[1..];
      nodes[key] := val;
      assert nodes[..] == old(nodes[..])[key := val];
      return Some(key);
    }

    /** Frees a slot and returns what it held. */
    method RemoveNode(h: nat, ghost taken: set<nat>) returns (val: Node)
      requires SlabHeld(taken) && h in taken && h < nodes.Length
      modifies this`freeListLen, this`freeListHead, this`free, nodes
      ensures val == old(nodes[h])
      ensures forall i :: 0 <= i < nodes.Length && i != h ==> nodes[i] == old(nodes[i])
      ensures SlabHeld(taken - {h}) && free == [h] + old(free)
      ensures Available() == old(Available()) + 1
    {
      SlabPush(nodes[..], bumpIndex, freeListHead, free, taken, h);
      val := nodes[h];
      var node := if freeListLen == 0 then LastFreeNode(freeListHead) else FreeNode(freeListHead);
      nodes[h] := node;
      assert nodes[..] == old(nodes[..])[h := node];
      freeListLen := freeListLen + 1;
      freeListHead := h;
      free := [h] + free;
    }

    /** Walks up a path and replaces an outdated earliest expiry below it. It may stop at the
        first frame, when what is below did not have the outdated expiry but the new one. */
    method UpdateParentEarliestExpiry(stack: Stack, outdated0: nat, new0: nat,
                                      ghost path: seq<Frame>, ghost h: nat, ghost expiry: nat)
      requires Follows(stack, path) && DistinctPath(path) && Held(nodes[..], path, h, expiry)
      requires expiry == outdated0 || expiry == new0
      modifies nodes
      ensures Held(nodes[..], path, h, new0)
      ensures forall i :: 0 <= i < nodes.Length && i !in PathHandles(path) ==> nodes[i] == old(nodes[i])
    {
      hide ExpiryAt, DistinctPath, PathHandles, Held, PartlyHeld;
      var outdated, new', i := outdated0, new0, |stack|;
      ExpiryAtEnd(path, expiry);
      ExpiryAtEnd(path, new0);
      PartlyHeldStart(nodes[..], path, h, expiry, new0);
      while i > 0
        invariant 0 <= i <= |path|
        invariant PartlyHeld(nodes[..], path, i, h, expiry, new0)
        invariant new' == ExpiryAt(path, i, new0)
        invariant outdated == ExpiryAt(path, i, expiry) || new' == ExpiryAt(path, i, expiry)
        invariant forall k :: 0 <= k < nodes.Length && k !in PathHandles(path) ==> nodes[k] == old(nodes[k])
      {
        ghost var before := nodes[..];
        var parent, right := stack[i - 1].0, stack[i - 1].1;
        NextFrame(nodes[..], path, i, h, expiry, new0);
        PartlyHeldStep(nodes[..], path, i, h, expiry, new0);
        var node := nodes[parent];
        if (if right then node.rightExpiry else node.leftExpiry) != outdated {
          PartlyHeldStop(nodes[..], path, i, h, expiry, new0);
          return;
        }
        outdated := NodeExpiry(node);
        node := if right then node.(rightExpiry := new') else node.(leftExpiry := new');
        nodes[parent] := node;
        new' := NodeExpiry(node);
        assert nodes[..] == before[parent := node];
        i := i - 1;
      }
      PartlyHeldStop(nodes[..], path, 0, h, expiry, new0);
    }

    /** Walks down to where a key is or belongs. */
    method FindInsertion(c: nat, key: Key) returns (parent: nat, stack: Stack, ghost path: seq<Frame>, ghost sub: Tree)
      requires Valid() && c < 2 && trees[c].Some?
      ensures trees[c].value == Plug(path, sub) && parent == sub.handle && Follows(stack, path) && Fits(path, key)
      ensures parent < nodes.Length && nodes[parent] == RootNode(sub)
      ensures StopsAt(sub, key) || (sub.Tip? && sub.leaf.key == key)
    {
      hide Plug, Fits, Distinct;
      parent, stack := roots[c].maybeNode, [];
      path, sub := [], trees[c].value;
      PlugNothing(sub, key);
      while true
        invariant trees[c].value == Plug(path, sub) && parent == sub.handle && Follows(stack, path) && Fits(path, key)
        invariant Represents(nodes[..], sub) && WellFormed(sub)
        decreases sub
      {
        RootNodeFacts(sub);
        var node := nodes[parent];
        if NodeKey(node) == key && node.LeafNode? {
          return;
        }
        var shared := Shared(NodeKey(node), key);
        SharedAll(NodeKey(node), key);
        if node.LeafNode? || shared < node.prefixLen {
          return;
        }
        var right := key[node.prefixLen];
        ghost var f := FrameTo(sub, right);
        PlugDown(path, f, if right then sub.right else sub.left, key);
        stack := stack + [(parent, right)];
        path, sub := path + [f], if right then sub.right else sub.left;
        parent := Child(node, right);
      }
    }

    /** Overwrites the leaf that has the key. */
    method Replace(c: nat, leaf: Leaf, parent: nat, stack: Stack, ghost path: seq<Frame>, ghost sub: Tree)
      returns (before: Leaf)
      requires Valid() && c < 2 && trees[c] == Some(Plug(path, sub)) && parent == sub.handle && Follows(stack, path)
      requires sub.Tip? && sub.leaf.key == leaf.key
      modifies nodes, this`trees
      ensures Valid() && before == sub.leaf
      ensures trees == old(trees)[c := Some(Plug(path, Tip(parent, leaf)))]
    {
      hide Held, Slab, Plug, AllFit, PathHandles, DistinctPath, OptHandles;
      ghost var n0, t := nodes[..], Tip(parent, leaf);
      GoodParts(n0, path, sub);
      before := nodes[parent].leaf;
      nodes[parent] := LeafNode(leaf);
      ghost var n1 := nodes[..];
      assert n1 == n0[parent := LeafNode(leaf)];
      HeldFrame(n0, n1, path, parent, before.Expiry());
      UpdateParentEarliestExpiry(stack, before.Expiry(), leaf.Expiry(), path, parent, before.Expiry());
      trees := trees[c := Some(Plug(path, t))];
      SameKeys(path, sub, t);
      Reassemble(n0, n1, nodes[..], path, sub, t);
      PlugSets(path, sub);
      PutReplaced(n0, nodes[..], bumpIndex, freeListHead, free, roots, old(trees), c, path, sub, t);
    }

    /** Takes slots for the new leaf and for the moved root, or neither. */
    method InsertBoth(leaf: Leaf, contents: Node, ghost taken: set<nat>) returns (r: Option<(nat, nat)>)
      requires SlabHeld(taken) && (contents.Inner? || contents.LeafNode?)
      modifies this`bumpIndex, this`freeListLen, this`freeListHead, this`free, nodes
      ensures r.None? <==> old(Available()) < 2
      ensures r.None? ==>
                && SlabHeld(taken) && Available() == old(Available())
                && forall i :: 0 <= i < nodes.Length && i in taken ==> nodes[i] == old(nodes[i])
      ensures r.Some? ==>
                && r.value.0 !in taken && r.value.1 !in taken && r.value.0 != r.value.1
                && r.value.0 < nodes.Length && r.value.1 < nodes.Length
                && nodes[..] == old(nodes[..])[r.value.0 := LeafNode(leaf)][r.value.1 := contents]
                && SlabHeld(taken + {r.value.0} + {r.value.1})
                && Available() == old(Available()) - 2
                && bumpIndex == Max(old(bumpIndex), MAX_NODES - Available())
    {
      hide Slab;
      AvailableIsNat(nodes[..], bumpIndex, freeListHead, free, taken);
      var a := InsertNode(LeafNode(leaf), taken);
      if a.None? {
        return None;
      }
      var b := InsertNode(contents, taken + {a.value});
      if b.None? {
        var _ := RemoveNode(a.value, taken + {a.value});
        assert taken + {a.value} - {a.value} == taken;
        return None;
      }
      return Some((a.value, b.value));
    }

    /** Adds a fork above the subtree where the new key branches off. Without room for both the
        leaf and the moved root, the trees stay as they are. */
    method BranchOff(c: nat, leaf: Leaf, parent: nat, stack: Stack, ghost path: seq<Frame>, ghost sub: Tree)
      returns (r: Result<nat>)
      requires Valid() && c < 2 && trees[c] == Some(Plug(path, sub)) && parent == sub.handle && Follows(stack, path)
      requires StopsAt(sub, leaf.key) && Fits(path, leaf.key)
      modifies nodes, this
      ensures Valid()
      ensures r.Err? <==> old(Available()) < 2
      ensures r.Err? ==> roots == old(roots) && trees == old(trees) && Available() == old(Available())
      ensures r.Ok? ==>
                && (exists b :: trees == old(trees)[c := Some(Plug(path, Split(sub, leaf, r.value, b)))])
                && Available() == old(Available()) - 2
                && bumpIndex == Max(old(bumpIndex), MAX_NODES - Available())
    {
      hide Held, Slab, Plug, AllFit, PathHandles, DistinctPath, OptHandles, Fits, Good, Split, StopsAt, TreeHeld, BranchWrites;
      ghost var taken := OptHandles(trees[0]) + OptHandles(trees[1]);
      ghost var n0 := nodes[..];
      Component(n0, bumpIndex, freeListHead, free, roots, trees, c);
      StoppedNode(n0, path, sub, leaf.key);
      var contents := nodes[parent];
      var slots := InsertBoth(leaf, contents, taken);
      if slots.None? {
        Undone(n0, nodes[..], bumpIndex, freeListHead, free, roots, trees, taken);
        return Err;
      }
      var (a, b) := slots.value;
      Taken(trees, c);
      FinishBranch(c, leaf, parent, stack, a, b, contents, n0, taken, path, sub);
      return Ok(a);
    }

    /** The rest of branching off, with both slots taken. */
    method FinishBranch(c: nat, leaf: Leaf, parent: nat, stack: Stack, a: nat, b: nat, contents: Node,
                        ghost n0: seq<Node>, ghost taken: set<nat>, ghost path: seq<Frame>, ghost sub: Tree)
      requires |roots| == |trees| == 2 && c < 2 && OptHandles(trees[0]) !! OptHandles(trees[1])
      requires taken == OptHandles(trees[0]) + OptHandles(trees[1])
      requires TreeHeld(n0, roots[0], trees[0]) && TreeHeld(n0, roots[1], trees[1])
      requires TreeHeld(n0, roots[c], trees[c]) && trees[c] == Some(Plug(path, sub)) && Good(n0, Plug(path, sub))
      requires Handles(Plug(path, sub)) <= taken
      requires StopsAt(sub, leaf.key) && Fits(path, leaf.key) && Follows(stack, path)
      requires parent == sub.handle < |n0| && contents == RootNode(sub)
      requires a < |n0| && b < |n0| && nodes[..] == n0[a := LeafNode(leaf)][b := contents]
      requires a != b && a !in taken && b !in taken && SlabHeld(taken + {a} + {b})
      modifies nodes, this`roots, this`trees
      ensures Valid()
      ensures trees == old(trees)[c := Some(Plug(path, Split(sub, leaf, a, b)))]
    {
      hide Held, Slab, Plug, PathHandles, OptHandles, Fits, Good, Split, TreeHeld, BranchWrites, RootNode, ValidState;
      ghost var n2 := nodes[..];
      BranchedHandles(n0, path, sub, leaf, a, b);
      WriteFork(leaf, parent, stack, a, b, contents, n0, path, sub);
      BranchDone(n0, n2, nodes[..], bumpIndex, freeListHead, free, roots, trees, c, taken, path, sub, leaf, a, b);
      roots := roots[c := Root(roots[c].maybeNode, roots[c].leafCount + 1)];
      trees := trees[c := Some(Plug(path, Split(sub, leaf, a, b)))];
    }

    /** Writes the new fork and updates the path above it. */
    method WriteFork(leaf: Leaf, parent: nat, stack: Stack, a: nat, b: nat, contents: Node,
                     ghost n0: seq<Node>, ghost path: seq<Frame>, ghost sub: Tree)
      requires Good(n0, Plug(path, sub)) && StopsAt(sub, leaf.key) && Follows(stack, path)
      requires parent == sub.handle < |n0| && contents == RootNode(sub)
      requires a < |n0| && b < |n0| && nodes[..] == n0[a := LeafNode(leaf)][b := contents]
      requires a != b && a !in Handles(Plug(path, sub)) && b !in Handles(Plug(path, sub)) && parent in Handles(Plug(path, sub))
      modifies nodes
      ensures var n3 := old(nodes[..])[parent := RootNode(Split(sub, leaf, a, b))];
              && BranchWrites(n0, n3, sub, leaf, a, b)
              && Good(n3, Split(sub, leaf, a, b)) && PathHandles(path) !! Handles(Split(sub, leaf, a, b))
              && Held(nodes[..], path, parent, Min(Earliest(sub), leaf.Expiry()))
              && forall i :: 0 <= i < nodes.Length && i !in PathHandles(path) ==> nodes[i] == n3[i]
    {
      hide Held, Plug, PathHandles, DistinctPath, Good, Split;
      RootNodeFacts(sub);
      SplitRoot(sub, leaf, a, b);
      var shared := Shared(NodeKey(contents), leaf.key);
      var right := leaf.key[shared];
      var expiry := NodeExpiry(contents);
      nodes[parent] := if right then Inner(shared, leaf.key, b, a, expiry, leaf.Expiry())
                       else Inner(shared, leaf.key, a, b, leaf.Expiry(), expiry);
      ghost var n3 := nodes[..];
      assert n3 == old(nodes[..])[parent := RootNode(Split(sub, leaf, a, b))];
      Branched(n0, n3, path, sub, leaf, a, b);
      if leaf.Expiry() < expiry {
        UpdateParentEarliestExpiry(stack, expiry, leaf.Expiry(), path, parent, expiry);
      }
    }

    /** Adds an order, replacing one with the same key; Err means out of slots, which depends
        only on how many orders there are. The bump index is the highest number of slots that were
        ever taken. */
    method InsertLeaf(c: nat, leaf: Leaf) returns (r: Result<(nat, Option<Leaf>)>)
      requires Valid() && c < 2
      modifies nodes, this
      ensures Valid() && Orders(1 - c) == old(Orders(1 - c))
      ensures r.Err? <==> MAX_NODES < SlotsOf(|old(Orders(0))|) + SlotsOf(|old(Orders(1))|) + SlotsFor(old(Orders(c)), leaf.key)
      ensures r.Err? ==> Orders(c) == old(Orders(c))
      ensures r.Ok? ==> bumpIndex == Max(old(bumpIndex), SlotsOf(|Orders(0)|) + SlotsOf(|Orders(1)|))
      ensures r.Ok? ==>
                && Orders(c) == Without(old(Orders(c)), leaf.key) + {leaf}
                && r.value.0 < nodes.Length && nodes[r.value.0] == LeafNode(leaf)
                && match r.value.1
                   case None => Without(old(Orders(c)), leaf.key) == old(Orders(c))
                   case Some(x) => x in old(Orders(c)) && x.key == leaf.key
    {
      hide Slab, OptHandles, Without, SlotsFor, LeafSet, SlotsOf;
      Component(nodes[..], bumpIndex, freeListHead, free, roots, trees, c);
      NoLeaves(leaf.key);
      AvailableIsNat(nodes[..], bumpIndex, freeListHead, free, OptHandles(trees[0]) + OptHandles(trees[1]));
      NothingLeaks(nodes[..], bumpIndex, freeListHead, free, roots, trees);
      if roots[c].leafCount == 0 {
        r := InsertFirst(c, leaf);
      } else {
        var parent, stack, path, sub := FindInsertion(c, leaf.key);
        r := InsertAt(c, leaf, parent, stack, path, sub);
      }
      NothingLeaks(nodes[..], bumpIndex, freeListHead, free, roots, trees);
    }

    /** The order goes where the walk stopped. */
    method InsertAt(c: nat, leaf: Leaf, parent: nat, stack: Stack, ghost path: seq<Frame>, ghost sub: Tree)
      returns (r: Result<(nat, Option<Leaf>)>)
      requires Valid() && c < 2 && trees[c] == Some(Plug(path, sub)) && parent == sub.handle && Follows(stack, path)
      requires Fits(path, leaf.key) && (StopsAt(sub, leaf.key) || (sub.Tip? && sub.leaf.key == leaf.key))
      requires parent < nodes.Length && nodes[parent] == RootNode(sub) && Available() >= 0
      modifies nodes, this
      ensures Valid() && Orders(1 - c) == old(Orders(1 - c))
      ensures r.Err? <==> old(Available()) < SlotsFor(old(Orders(c)), leaf.key)
      ensures r.Err? ==> Orders(c) == old(Orders(c))
      ensures r.Ok? ==>
                && Orders(c) == Without(old(Orders(c)), leaf.key) + {leaf}
                && bumpIndex == Max(old(bumpIndex), MAX_NODES - Available())
                && r.value.0 < nodes.Length && nodes[r.value.0] == LeafNode(leaf)
                && match r.value.1
                   case None => Without(old(Orders(c)), leaf.key) == old(Orders(c))
                   case Some(x) => x in old(Orders(c)) && x.key == leaf.key
    {
      hide Slab, Plug, Good, Split, Fits, OptHandles, Without, SlotsFor, LeafSet;
      Component(nodes[..], bumpIndex, freeListHead, free, roots, trees, c);
      RootNodeFacts(sub);
      SharedAll(RootKey(sub), leaf.key);
      if nodes[parent].LeafNode? && NodeKey(nodes[parent]) == leaf.key {
        ReplacedLeaves(nodes[..], path, sub, leaf);
        var before := Replace(c, leaf, parent, stack, path, sub);
        Component(nodes[..], bumpIndex, freeListHead, free, roots, trees, c);
        TipNode(nodes[..], path, Tip(parent, leaf));
        return Ok((parent, Some(before)));
      }
      BranchedLeaves(nodes[..], path, sub, leaf);
      var h := BranchOff(c, leaf, parent, stack, path, sub);
      if h.Err? {
        return Err;
      }
      Component(nodes[..], bumpIndex, freeListHead, free, roots, trees, c);
      ghost var b :| trees == old(trees)[c := Some(Plug(path, Split(sub, leaf, h.value, b)))];
      SplitNode(nodes[..], path, sub, leaf, h.value, b);
      return Ok((h.value, None));
    }

    /** The first order of a tree. */
    method InsertFirst(c: nat, leaf: Leaf) returns (r: Result<(nat, Option<Leaf>)>)
      requires Valid() && c < 2 && trees[c].None?
      modifies nodes, this
      ensures Valid() && Orders(1 - c) == old(Orders(1 - c))
      ensures r.Err? <==> old(Available()) < 1
      ensures r.Err? ==> trees == old(trees)
      ensures r.Ok? ==>
                && Orders(c) == {leaf} && r.value.1 == None
                && bumpIndex == Max(old(bumpIndex), MAX_NODES - Available())
                && r.value.0 < nodes.Length && nodes[r.value.0] == LeafNode(leaf)
    {
      hide Slab;
      ghost var taken, n0 := OptHandles(trees[1 - c]), nodes[..];
      assert OptHandles(trees[0]) + OptHandles(trees[1]) == taken;
      AvailableIsNat(n0, bumpIndex, freeListHead, free, taken);
      var h := InsertNode(LeafNode(leaf), taken);
      if h.None? {
        return Err;
      }
      assert OptHandles(Some(Tip(h.value, leaf))) + taken == taken + {h.value};
      PutTree(n0, nodes[..], bumpIndex, freeListHead, free, roots, trees, c, Root(h.value, 1), Some(Tip(h.value, leaf)));
      roots := roots[c := Root(h.value, 1)];
      trees := trees[c := Some(Tip(h.value, leaf))];
      return Ok((h.value, None));
    }

    /** Walks down by the key's bits to the only leaf that can have it. */
    method FindLeaf(c: nat, key: Key) returns (child: nat, stack: Stack, ghost path: seq<Frame>, ghost sub: Tree)
      requires Valid() && c < 2 && trees[c].Some?
      ensures trees[c].value == Plug(path, sub) && child == sub.handle && Follows(stack, path) && Leads(path, key)
      ensures sub.Tip? && child < nodes.Length && nodes[child] == LeafNode(sub.leaf)
    {
      hide Plug, Distinct, Leads;
      child, stack := roots[c].maybeNode, [];
      path, sub := [], trees[c].value;
      LeadsNowhere(sub, key);
      while nodes[child].Inner?
        invariant trees[c].value == Plug(path, sub) && child == sub.handle && Follows(stack, path) && Leads(path, key)
        invariant Represents(nodes[..], sub) && WellFormed(sub)
        decreases sub
      {
        var node := nodes[child];
        var right := key[node.prefixLen];
        ghost var f := FrameTo(sub, right);
        LeadsDown(path, f, if right then sub.right else sub.left, key);
        stack := stack + [(child, right)];
        path, sub := path + [f], if right then sub.right else sub.left;
        child := Child(node, right);
      }
    }

    /** Changes the quantity of the order with the key, in place. */
    method SetQuantity(c: nat, key: Key, quantity: int) returns (before: Leaf)
      requires Valid() && c < 2 && exists x :: x in Orders(c) && x.key == key
      modifies nodes, this`trees
      ensures Valid() && Orders(1 - c) == old(Orders(1 - c))
      ensures before in old(Orders(c)) && before.key == key
      ensures Orders(c) == Without(old(Orders(c)), key) + {before.(quantity := quantity)}
    {
      hide Held, Slab, Plug, AllFit, PathHandles, DistinctPath, OptHandles, Without, LeafSet, Leads;
      Component(nodes[..], bumpIndex, freeListHead, free, roots, trees, c);
      ghost var n0 := nodes[..];
      var child, stack, path, sub := FindLeaf(c, key);
      FoundLeaf(n0, path, sub, key);
      WithoutAny(Orders(c), key);
      before := nodes[child].leaf;
      GoodParts(n0, path, sub);
      nodes[child] := LeafNode(before.(quantity := quantity));
      ghost var n1, t := nodes[..], Tip(child, before.(quantity := quantity));
      assert n1 == n0[child := LeafNode(before.(quantity := quantity))];
      HeldFrame(n0, n1, path, child, before.Expiry());
      SameKeys(path, sub, t);
      Reassemble(n0, n1, n1, path, sub, t);
      PlugSets(path, sub);
      ReplacedLeaves(n0, path, sub, t.leaf);
      PutReplaced(n0, n1, bumpIndex, freeListHead, free, roots, trees, c, path, sub, t);
      trees := trees[c := Some(Plug(path, t))];
    }

    /** Removes the order with the key and returns it. */
    method RemoveByKey(c: nat, key: Key) returns (r: Option<Leaf>)
      requires Valid() && c < 2
      modifies nodes, this
      ensures Valid() && Orders(1 - c) == old(Orders(1 - c)) && bumpIndex == old(bumpIndex)
      ensures Orders(c) == Without(old(Orders(c)), key)
      ensures match r
              case None => Without(old(Orders(c)), key) == old(Orders(c))
              case Some(x) => x in old(Orders(c)) && x.key == key
    {
      hide Slab, Plug, Good, Leads, OptHandles;
      Component(nodes[..], bumpIndex, freeListHead, free, roots, trees, c);
      if roots[c].leafCount == 0 {
        return None;
      }
      var child, stack, path, sub := FindLeaf(c, key);
      FoundLeaf(nodes[..], path, sub, key);
      var leaf := nodes[child].leaf;
      if leaf.key != key {
        return None;
      }
      if stack == [] {
        RemoveOnly(c, child);
      } else {
        CollapseParent(c, child, leaf, stack, path);
      }
      return Some(leaf);
    }

    /** Removes the last order of a tree. */
    method RemoveOnly(c: nat, child: nat)
      requires Valid() && c < 2 && trees[c].Some? && trees[c].value.Tip? && child == trees[c].value.handle
      modifies nodes, this
      ensures Valid() && trees == old(trees)[c := None] && bumpIndex == old(bumpIndex)
    {
      hide Slab, FreeList;
      ghost var taken, n0 := OptHandles(trees[0]) + OptHandles(trees[1]), nodes[..];
      assert roots[c].leafCount == 1;
      var _ := RemoveNode(child, taken);
      assert taken - {child} == OptHandles(None) + OptHandles(trees[1 - c]);
      PutTree(n0, nodes[..], bumpIndex, freeListHead, free, roots, trees, c, Root(0, 0), None);
      roots := roots[c := Root(0, 0)];
      trees := trees[c := None];
    }

    /** Moves a node to its parent's slot and frees its own slot and its sibling's. */
    method MoveUp(parent: nat, other: nat, child: nat, ghost taken: set<nat>) returns (contents: Node)
      requires SlabHeld(taken) && {parent, other, child} <= taken
      requires parent != other && parent != child && other != child
      requires parent < nodes.Length && other < nodes.Length && child < nodes.Length
      modifies this`freeListLen, this`freeListHead, this`free, nodes
      ensures contents == old(nodes[other]) && nodes[parent] == contents
      ensures forall i :: 0 <= i < nodes.Length && i != parent && i != other && i != child ==> nodes[i] == old(nodes[i])
      ensures SlabHeld(taken - {other} - {child})
    {
      hide Slab;
      contents := RemoveNode(other, taken);
      ghost var before := nodes[..];
      nodes[parent] := contents;
      SlabInside(before, nodes[..], bumpIndex, freeListHead, free, taken - {other});
      var _ := RemoveNode(child, taken - {other});
    }

    /** Removes a leaf, moves its sibling to the parent's slot and updates the path above it. */
    method CollapseParent(c: nat, child: nat, leaf: Leaf, stack: Stack, ghost path: seq<Frame>)
      requires Valid() && c < 2 && trees[c] == Some(Plug(path, Tip(child, leaf))) && Follows(stack, path) && path != []
      modifies nodes, this
      ensures Valid() && bumpIndex == old(bumpIndex)
      ensures trees == old(trees)[c := Some(Collapsed(path))]
    {
      hide Slab, Plug, Good, OptHandles, Held, PathHandles, DistinctPath, TreeHeld, ValidState, Collapsed;
      ghost var n0, n := nodes[..], |path| - 1;
      ghost var f, init := path[n], path[..n];
      Slotted(n0, bumpIndex, freeListHead, free, roots, trees);
      ghost var taken := OptHandles(trees[0]) + OptHandles(trees[1]);
      Component(n0, bumpIndex, freeListHead, free, roots, trees, c);
      CollapseSlots(n0, path, child, leaf);
      Taken(trees, c);
      RootNodeFacts(f.sibling);
      var parent, right := stack[|stack| - 1].0, stack[|stack| - 1].1;
      var other := Child(nodes[parent], !right);
      var contents := MoveUp(parent, other, child, taken);
      ghost var n1 := nodes[..];
      CollapsedTree(n0, n1, path, child, leaf);
      UpdateParentEarliestExpiry(stack[..|stack| - 1], leaf.Expiry(), NodeExpiry(contents), init, parent,
                                 Min(Earliest(f.sibling), leaf.Expiry()));
      CollapseDone(n0, n1, nodes[..], bumpIndex, freeListHead, free, roots, trees, c, taken, path, child, leaf);
      roots := roots[c := Root(roots[c].maybeNode, roots[c].leafCount - 1)];
      trees := trees[c := Some(Collapsed(path))];
    }

    /** The order with the smallest or the largest key. */
    method LeafMinMax(c: nat, max: bool) returns (r: Option<(nat, Leaf)>)
      requires Valid() && c < 2
      ensures r.None? <==> Orders(c) == {}
      ensures r.Some? ==>
                && r.value.1 in Orders(c)
                && r.value.0 < nodes.Length && nodes[r.value.0] == LeafNode(r.value.1)
                && forall y :: y in Orders(c) ==>
                     y == r.value.1 || if max then Less(y.key, r.value.1.key) else Less(r.value.1.key, y.key)
    {
      hide Less, Slab;
      Component(nodes[..], bumpIndex, freeListHead, free, roots, trees, c);
      if roots[c].leafCount == 0 {
        return None;
      }
      ghost var t, sub := trees[c].value, trees[c].value;
      var h := roots[c].maybeNode;
      while nodes[h].Inner?
        invariant h == sub.handle && Represents(nodes[..], sub) && Extreme(sub, max) == Extreme(t, max)
        decreases sub
      {
        sub := if max then sub.right else sub.left;
        h := Child(nodes[h], max);
      }
      assert Extreme(t, max) in LeafSet(t);
      forall y | y in Orders(c) ensures y == sub.leaf || if max then Less(y.key, sub.leaf.key) else Less(sub.leaf.key, y.key) {
        ExtremeIsBound(t, max, y);
      }
      return Some((h, nodes[h].leaf));
    }

    /** The slot of the order that expires first, and when it does. */
    method FindEarliestExpiry(c: nat) returns (r: Option<(nat, nat)>)
      requires Valid() && c < 2
      ensures r.None? <==> Orders(c) == {}
      ensures r.Some? ==>
                && r.value.0 < nodes.Length && nodes[r.value.0].LeafNode?
                && nodes[r.value.0].leaf in Orders(c) && nodes[r.value.0].leaf.Expiry() == r.value.1
                && forall y :: y in Orders(c) ==> r.value.1 <= y.Expiry()
    {
      hide Slab;
      Component(nodes[..], bumpIndex, freeListHead, free, roots, trees, c);
      if roots[c].leafCount == 0 {
        return None;
      }
      ghost var t, sub := trees[c].value, trees[c].value;
      var current := roots[c].maybeNode;
      while nodes[current].Inner?
        invariant current == sub.handle && Represents(nodes[..], sub) && EarliestLeaf(sub) == EarliestLeaf(t)
        decreases sub
      {
        var node := nodes[current];
        sub := if node.leftExpiry > node.rightExpiry then sub.right else sub.left;
        current := Child(node, node.leftExpiry > node.rightExpiry);
      }
      assert EarliestLeaf(t) in LeafSet(t);
      EarliestIsMin(t);
      return Some((current, NodeExpiry(nodes[current])));
    }

    /** Removes the order of a tree that expires first, if that is before `now`. */
    method RemoveOneExpired(c: nat, now: nat) returns (r: Option<Leaf>)
      requires Valid() && c < 2
      modifies nodes, this
      ensures Valid() && Orders(1 - c) == old(Orders(1 - c)) && bumpIndex == old(bumpIndex)
      ensures r.None? <==> forall y :: y in old(Orders(c)) ==> now <= y.Expiry()
      ensures r.None? ==> Orders(c) == old(Orders(c))
      ensures r.Some? ==>
                && r.value in old(Orders(c)) && Orders(c) == old(Orders(c)) - {r.value}
                && forall y :: y in old(Orders(c)) ==> r.value.Expiry() <= y.Expiry()
    {
      hide Slab;
      var found := FindEarliestExpiry(c);
      if found.None? || found.value.1 >= now {
        return None;
      }
      var leaf := nodes[found.value.0].leaf;
      assert now > leaf.Expiry();
      Component(nodes[..], bumpIndex, freeListHead, free, roots, trees, c);
      OnlyThat(trees[c].value, leaf);
      r := RemoveByKey(c, leaf.key);
    }

    /** The same for the whole side: the given tree first, then the other one. */
    method RemoveExpiredOrOther(c: nat, now: nat) returns (r: Option<Leaf>, ghost from: nat)
      requires Valid() && c < 2
      modifies nodes, this
      ensures Valid() && from < 2 && bumpIndex == old(bumpIndex)
      ensures r.None? <==> forall y :: y in old(Orders(0)) + old(Orders(1)) ==> now <= y.Expiry()
      ensures r.None? ==> Orders(0) == old(Orders(0)) && Orders(1) == old(Orders(1))
      ensures r.Some? ==>
                && r.value in old(Orders(from)) && r.value.Expiry() < now
                && (forall y :: y in old(Orders(from)) ==> r.value.Expiry() <= y.Expiry())
                && Orders(from) == old(Orders(from)) - {r.value} && Orders(1 - from) == old(Orders(1 - from))
                && (from != c ==> forall y :: y in old(Orders(c)) ==> now <= y.Expiry())
    {
      hide ValidState, OptLeaves;
      from := c;
      r := RemoveOneExpired(c, now);
      if r.None? {
        from := 1 - c;
        r := RemoveOneExpired(1 - c, now);
      }
    }

    /** What the caller checks before inserting. */
    method IsFull() returns (full: bool)
      requires Valid()
      ensures full <==> Full(SlotsOf(|Orders(0)|) + SlotsOf(|Orders(1)|), bumpIndex)
      ensures SlotsOf(|Orders(0)|) + SlotsOf(|Orders(1)|) <= MAX_NODES
    {
      hide TreeHeld, OptLeaves;
      NothingLeaks(nodes[..], bumpIndex, freeListHead, free, roots, trees);
      full := freeListLen <= 1 && bumpIndex >= nodes.Length - 1;
    }
  }

  /** The slab holds a path in which the expiries below frame `i` and later ones are already new. */
  ghost predicate PartlyHeld(nodes: seq<Node>, path: seq<Frame>, i: nat, h: nat, expiry: nat, new': nat) {
    && i <= |path|
    && (forall j :: i <= j < |path| ==> FrameHeld(nodes, path[j], HandleAt(path, j + 1, h), ExpiryAt(path, j + 1, new')))
    && (forall j :: 0 <= j < i ==> FrameHeld(nodes, path[j], HandleAt(path, j + 1, h), ExpiryAt(path, j + 1, expiry)))
  }

  lemma PartlyHeldStart(nodes: seq<Node>, path: seq<Frame>, h: nat, expiry: nat, new': nat)
    requires Held(nodes, path, h, expiry)
    ensures PartlyHeld(nodes, path, |path|, h, expiry, new')
  {}

  lemma PartlyHeldStop(nodes: seq<Node>, path: seq<Frame>, i: nat, h: nat, expiry: nat, new': nat)
    requires PartlyHeld(nodes, path, i, h, expiry, new')
    requires i == 0 || ExpiryAt(path, i, expiry) == ExpiryAt(path, i, new')
    ensures Held(nodes, path, h, new')
  {
    hide FrameHeld, ExpiryAt;
    forall j | 0 <= j < i
      ensures FrameHeld(nodes, path[j], HandleAt(path, j + 1, h), ExpiryAt(path, j + 1, new'))
    {
      ExpiryAgrees(path, i, j + 1, expiry, new');
    }
  }

  /** What the slab holds for the frame above position `i`. */
  lemma NextFrame(nodes: seq<Node>, path: seq<Frame>, i: nat, h: nat, expiry: nat, new': nat)
    requires PartlyHeld(nodes, path, i, h, expiry, new') && i > 0
    ensures var f, e, e' := path[i - 1], ExpiryAt(path, i, expiry), ExpiryAt(path, i, new');
            && f.handle < |nodes| && nodes[f.handle] == FrameNode(f, HandleAt(path, i, h), e)
            && ExpiryAt(path, i - 1, expiry) == Min(Earliest(f.sibling), e)
            && ExpiryAt(path, i - 1, new') == Min(Earliest(f.sibling), e')
            && f.handle in PathHandles(path)
  {
    hide PathHandles;
    FrameFacts(nodes, path[i - 1], HandleAt(path, i, h), ExpiryAt(path, i, expiry));
    FrameInPath(path, i - 1, |path|);
    assert path[..|path|] == path;
  }

  lemma PartlyHeldStep(nodes: seq<Node>, path: seq<Frame>, i: nat, h: nat, expiry: nat, new': nat)
    requires PartlyHeld(nodes, path, i, h, expiry, new') && i > 0 && DistinctPath(path)
    requires path[i - 1].handle < |nodes|
    ensures PartlyHeld(nodes[path[i - 1].handle := FrameNode(path[i - 1], HandleAt(path, i, h), ExpiryAt(path, i, new'))],
                       path, i - 1, h, expiry, new')
  {
    hide DistinctPath, FrameHeld, ExpiryAt, FrameNode;
    var v := FrameNode(path[i - 1], HandleAt(path, i, h), ExpiryAt(path, i, new'));
    FrameRewrite(nodes, path, i - 1, HandleAt(path, i, h), ExpiryAt(path, i, expiry), ExpiryAt(path, i, new'));
    forall j | 0 <= j < i - 1
      ensures FrameHeld(nodes[path[i - 1].handle := v], path[j], HandleAt(path, j + 1, h), ExpiryAt(path, j + 1, expiry))
    {
      FrameWrite(nodes, path, i - 1, v, j, HandleAt(path, j + 1, h), ExpiryAt(path, j + 1, expiry));
    }
    forall j | i <= j < |path|
      ensures FrameHeld(nodes[path[i - 1].handle := v], path[j], HandleAt(path, j + 1, h), ExpiryAt(path, j + 1, new'))
    {
      FrameWrite(nodes, path, i - 1, v, j, HandleAt(path, j + 1, h), ExpiryAt(path, j + 1, new'));
    }
  }

  lemma FrameFacts(nodes: seq<Node>, f: Frame, h: nat, expiry: nat)
    requires FrameHeld(nodes, f, h, expiry)
    ensures f.handle < |nodes| && nodes[f.handle] == FrameNode(f, h, expiry)
  {}
}
