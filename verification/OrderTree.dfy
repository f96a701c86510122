/** The crit-bit trees of an order book side, as values: keys, trees with the slab handle of every
    node, and trees with a hole. */
module OrderTrees {

  const KEY_BITS: nat := 128
  const U64_MAX: nat := 0xffff_ffff_ffff_ffff

  /** A u128 key, as its bits, highest first. */
  type Key = k: seq<bool> | |k| == KEY_BITS witness seq(KEY_BITS, _ => false)

  /** An order; `rest` stands for the fields that neither book nor matching look at. */
  datatype Leaf = Leaf(key: Key, timestamp: nat, timeInForce: nat, pegLimit: int, owner: nat, quantity: int, rest: int) {
    function Expiry(): nat {
      if timeInForce == 0 then U64_MAX else timestamp + timeInForce
    }
  }

  function Min(a: nat, b: nat): nat {
    if b < a then b else a
  }

  // ---- Keys ----

  /** The length of the common prefix: the leading zeros of the exclusive or. */
  function Shared(a: Key, b: Key): (n: nat)
    ensures n <= KEY_BITS && Agree(a, b, n)
    ensures n < KEY_BITS ==> a[n] != b[n]
  {
    SharedFrom(a, b, 0)
  }

  function SharedFrom(a: Key, b: Key, i: nat): (n: nat)
    requires i <= KEY_BITS
    ensures i <= n <= KEY_BITS
    ensures forall j :: i <= j < n ==> a[j] == b[j]
    ensures n < KEY_BITS ==> a[n] != b[n]
    decreases KEY_BITS - i
  {
    if i == KEY_BITS || a[i] != b[i] then i else SharedFrom(a, b, i + 1)
  }

  ghost predicate Agree(a: Key, b: Key, n: nat) {
    n <= KEY_BITS && forall i :: 0 <= i < n ==> a[i] == b[i]
  }

  lemma SharedIs(a: Key, b: Key, n: nat)
    requires n < KEY_BITS && Agree(a, b, n) && a[n] != b[n]
    ensures Shared(a, b) == n
  {}

  lemma SharedAll(a: Key, b: Key)
    ensures Shared(a, b) == KEY_BITS <==> a == b
  {}

  /** The order of the numbers. */
  predicate Less(a: Key, b: Key) {
    var n := Shared(a, b);
    n < KEY_BITS && b[n]
  }

  // ---- Trees ----

  datatype Tree =
    | Tip(handle: nat, leaf: Leaf)
    | Fork(handle: nat, prefixLen: nat, key: Key, left: Tree, right: Tree)

  /** What a slab slot holds. A free slot points to the next one; what the last one points to is
      never used. */
  datatype Node =
    | Uninitialized
    | Inner(prefixLen: nat, key: Key, left: nat, right: nat, leftExpiry: nat, rightExpiry: nat)
    | LeafNode(leaf: Leaf)
    | FreeNode(next: nat)
    | LastFreeNode(next: nat)

  function RootKey(t: Tree): Key {
    match t
    case Tip(_, leaf) => leaf.key
    case Fork(_, _, key, _, _) => key
  }

  function Handles(t: Tree): set<nat> {
    match t
    case Tip(h, _) => {h}
    case Fork(h, _, _, l, r) => {h} + Handles(l) + Handles(r)
  }

  function LeafSet(t: Tree): set<Leaf> {
    match t
    case Tip(_, leaf) => {leaf}
    case Fork(_, _, _, l, r) => LeafSet(l) + LeafSet(r)
  }

  function Count(t: Tree): (n: nat)
    ensures n > 0
  {
    match t
    case Tip(_, _) => 1
    case Fork(_, _, _, l, r) => Count(l) + Count(r)
  }

  function Earliest(t: Tree): nat {
    match t
    case Tip(_, leaf) => leaf.Expiry()
    case Fork(_, _, _, l, r) => Min(Earliest(l), Earliest(r))
  }

  ghost predicate Distinct(t: Tree) {
    match t
    case Tip(_, _) => true
    case Fork(h, _, _, l, r) =>
      && h !in Handles(l) && h !in Handles(r) && Handles(l) !! Handles(r)
      && Distinct(l) && Distinct(r)
  }

  ghost predicate Branch(t: Tree, key: Key, p: nat, bit: bool) {
    p < KEY_BITS && forall x :: x in LeafSet(t) ==> Agree(x.key, key, p) && x.key[p] == bit
  }

  /** All keys below a fork share its prefix; the next bit tells left from right. */
  ghost predicate WellFormed(t: Tree) {
    match t
    case Tip(_, _) => true
    case Fork(_, p, key, l, r) =>
      && Branch(l, key, p, false) && Branch(r, key, p, true)
      && WellFormed(l) && WellFormed(r)
  }

  /** The node at the root of a tree. */
  function RootNode(t: Tree): Node {
    match t
    case Tip(_, leaf) => LeafNode(leaf)
    case Fork(_, p, key, l, r) => Inner(p, key, l.handle, r.handle, Earliest(l), Earliest(r))
  }

  /** The slab holds the tree, with the right earliest expiries. */
  ghost predicate Represents(nodes: seq<Node>, t: Tree) {
    && t.handle < |nodes| && nodes[t.handle] == RootNode(t)
    && (t.Fork? ==> Represents(nodes, t.left) && Represents(nodes, t.right))
  }

  lemma {:induction false} RootIsHandle(t: Tree)
    ensures t.handle in Handles(t)
  {}

  lemma {:induction false} RepresentsFrame(nodes: seq<Node>, nodes': seq<Node>, t: Tree)
    requires Represents(nodes, t) && |nodes'| == |nodes|
    requires forall h :: h in Handles(t) && h < |nodes| ==> nodes'[h] == nodes[h]
    ensures Represents(nodes', t)
  {
    RootIsHandle(t);
    if t.Fork? {
      RepresentsFrame(nodes, nodes', t.left);
      RepresentsFrame(nodes, nodes', t.right);
    }
  }

  /** A tree of n leaves uses 2n - 1 slots. */
  lemma {:induction false} HandleCount(t: Tree)
    requires Distinct(t)
    ensures |Handles(t)| == 2 * Count(t) - 1
  {
    if t.Fork? {
      HandleCount(t.left);
      HandleCount(t.right);
      assert |Handles(t)| == 1 + |Handles(t.left)| + |Handles(t.right)| by {
        assert {t.handle} !! Handles(t.left) && ({t.handle} + Handles(t.left)) !! Handles(t.right);
      }
    }
  }

  /** The leaf with the earliest expiry, the leftmost one if there are several. */
  function EarliestLeaf(t: Tree): (x: Leaf)
    ensures x in LeafSet(t) && x.Expiry() == Earliest(t)
  {
    match t
    case Tip(_, leaf) => leaf
    case Fork(_, _, _, l, r) => if Earliest(l) > Earliest(r) then EarliestLeaf(r) else EarliestLeaf(l)
  }

  lemma {:induction false} EarliestIsMin(t: Tree)
    ensures forall x :: x in LeafSet(t) ==> Earliest(t) <= x.Expiry()
  {
    if t.Fork? {
      EarliestIsMin(t.left);
      EarliestIsMin(t.right);
    }
  }

  /** The leaf with the smallest or the largest key. */
  function Extreme(t: Tree, max: bool): (x: Leaf)
    ensures x in LeafSet(t)
  {
    match t
    case Tip(_, leaf) => leaf
    case Fork(_, _, _, l, r) => Extreme(if max then r else l, max)
  }

  lemma {:induction false} ExtremeIsBound(t: Tree, max: bool, y: Leaf)
    requires WellFormed(t) && y in LeafSet(t)
    ensures var x := Extreme(t, max); y == x || if max then Less(y.key, x.key) else Less(x.key, y.key)
  {
    if t.Fork? {
      var near, far := if max then t.right else t.left, if max then t.left else t.right;
      if y in LeafSet(near) {
        ExtremeIsBound(near, max, y);
      } else {
        var x := Extreme(near, max);
        SharedIs(x.key, y.key, t.prefixLen);
        SharedIs(y.key, x.key, t.prefixLen);
      }
    }
  }

  /** In a well-formed tree, leaves have different keys. */
  lemma {:induction false} KeysDiffer(t: Tree, x: Leaf, y: Leaf)
    requires WellFormed(t) && x in LeafSet(t) && y in LeafSet(t) && x.key == y.key
    ensures x == y
  {
    if t.Fork? {
      if x in LeafSet(t.left) && y in LeafSet(t.left) {
        KeysDiffer(t.left, x, y);
      } else if x in LeafSet(t.right) && y in LeafSet(t.right) {
        KeysDiffer(t.right, x, y);
      }
    }
  }

  lemma {:induction false} LeafCount(t: Tree)
    requires WellFormed(t)
    ensures |LeafSet(t)| == Count(t)
  {
    if t.Fork? {
      LeafCount(t.left);
      LeafCount(t.right);
      assert LeafSet(t.left) !! LeafSet(t.right) by {
        forall x | x in LeafSet(t.left) ensures x !in LeafSet(t.right) {
          assert !x.key[t.prefixLen];
        }
      }
    }
  }

  // ---- Visiting the leaves ----

  /** The leaves in the order of iteration. */
  function InOrder(t: Tree, descending: bool): seq<Leaf> {
    match t
    case Tip(_, leaf) => [leaf]
    case Fork(_, _, _, l, r) =>
      if descending then InOrder(r, descending) + InOrder(l, descending)
      else InOrder(l, descending) + InOrder(r, descending)
  }

  ghost predicate Before(a: Leaf, b: Leaf, descending: bool) {
    if descending then Less(b.key, a.key) else Less(a.key, b.key)
  }

  ghost predicate SortedLeaves(s: seq<Leaf>, descending: bool) {
    forall i, j :: 0 <= i < j < |s| ==> Before(s[i], s[j], descending)
  }

  lemma SortedConcat(a: seq<Leaf>, b: seq<Leaf>, descending: bool)
    requires SortedLeaves(a, descending) && SortedLeaves(b, descending)
    requires forall x, y :: x in a && y in b ==> Before(x, y, descending)
    ensures SortedLeaves(a + b, descending)
  {
    hide Before;
    forall i, j | 0 <= i < j < |a + b| ensures Before((a + b)[i], (a + b)[j], descending) {
      if i < |a| <= j {
        assert a[i] in a && b[j - |a|] in b;
      } else if j < |a| {
        assert Before(a[i], a[j], descending);
      } else {
        assert Before(b[i - |a|], b[j - |a|], descending);
      }
    }
  }

  /** Iteration visits exactly the leaves, in the order of their keys. */
  lemma {:induction false} InOrderIsSorted(t: Tree, descending: bool)
    requires WellFormed(t)
    ensures SortedLeaves(InOrder(t, descending), descending)
    ensures forall x :: x in InOrder(t, descending) <==> x in LeafSet(t)
    ensures |InOrder(t, descending)| == Count(t)
  {
    if t.Fork? {
      InOrderIsSorted(t.left, descending);
      InOrderIsSorted(t.right, descending);
      var near, far := if descending then t.right else t.left, if descending then t.left else t.right;
      forall x, y | x in InOrder(near, descending) && y in InOrder(far, descending) ensures Before(x, y, descending) {
        SharedIs(x.key, y.key, t.prefixLen);
        SharedIs(y.key, x.key, t.prefixLen);
      }
      SortedConcat(InOrder(near, descending), InOrder(far, descending), descending);
    }
  }

  // ---- Trees with a hole ----

  /** A fork on the path to the hole, which is its right child when `dir`. */
  datatype Frame = Frame(handle: nat, prefixLen: nat, key: Key, dir: bool, sibling: Tree)

  function Join(f: Frame, t: Tree): Tree {
    if f.dir then Fork(f.handle, f.prefixLen, f.key, f.sibling, t)
    else Fork(f.handle, f.prefixLen, f.key, t, f.sibling)
  }

  /** Frames are listed from the root down. */
  function Plug(path: seq<Frame>, t: Tree): Tree {
    if path == [] then t else Plug(path[..|path| - 1], Join(path[|path| - 1], t))
  }

  function PathHandles(path: seq<Frame>): set<nat> {
    if path == [] then {}
    else
      var f := path[|path| - 1];
      PathHandles(path[..|path| - 1]) + {f.handle} + Handles(f.sibling)
  }

  function PathLeaves(path: seq<Frame>): set<Leaf> {
    if path == [] then {} else PathLeaves(path[..|path| - 1]) + LeafSet(path[|path| - 1].sibling)
  }

  ghost predicate DistinctPath(path: seq<Frame>) {
    path != [] ==>
      var init, f := path[..|path| - 1], path[|path| - 1];
      && DistinctPath(init) && Distinct(f.sibling) && f.handle !in Handles(f.sibling)
      && f.handle !in PathHandles(init) && Handles(f.sibling) !! PathHandles(init)
  }

  ghost predicate FitsFrame(f: Frame, k: Key) {
    f.prefixLen < KEY_BITS && Agree(k, f.key, f.prefixLen) && k[f.prefixLen] == f.dir
  }

  ghost predicate Fits(path: seq<Frame>, k: Key) {
    forall i :: 0 <= i < |path| ==> FitsFrame(path[i], k)
  }

  ghost predicate WellFormedPath(path: seq<Frame>) {
    path != [] ==>
      var init, f := path[..|path| - 1], path[|path| - 1];
      && WellFormedPath(init) && WellFormed(f.sibling)
      && Branch(f.sibling, f.key, f.prefixLen, !f.dir)
      && forall x :: x in LeafSet(f.sibling) ==> Fits(init, x.key)
  }

  lemma {:induction false} PlugSets(path: seq<Frame>, t: Tree)
    ensures Handles(Plug(path, t)) == PathHandles(path) + Handles(t)
    ensures LeafSet(Plug(path, t)) == PathLeaves(path) + LeafSet(t)
  {
    if path != [] {
      PlugSets(path[..|path| - 1], Join(path[|path| - 1], t));
    }
  }

  lemma {:induction false} PlugDistinct(path: seq<Frame>, t: Tree)
    ensures Distinct(Plug(path, t)) <==> DistinctPath(path) && Distinct(t) && PathHandles(path) !! Handles(t)
  {
    if path != [] {
      PlugDistinct(path[..|path| - 1], Join(path[|path| - 1], t));
    }
  }

  ghost predicate AllFit(path: seq<Frame>, t: Tree) {
    forall x :: x in LeafSet(t) ==> Fits(path, x.key)
  }

  lemma FitsLast(path: seq<Frame>, k: Key)
    requires path != []
    ensures Fits(path, k) <==> Fits(path[..|path| - 1], k) && FitsFrame(path[|path| - 1], k)
  {
    var n := |path| - 1;
    if Fits(path[..n], k) && FitsFrame(path[n], k) {
      forall i | 0 <= i < |path| ensures FitsFrame(path[i], k) {
        if i < n { assert FitsFrame(path[..n][i], k); }
      }
    }
    if Fits(path, k) {
      forall i | 0 <= i < n ensures FitsFrame(path[..n][i], k) {
        assert FitsFrame(path[i], k);
      }
    }
  }

  lemma JoinAllFit(path: seq<Frame>, t: Tree)
    requires path != []
    ensures var init, f := path[..|path| - 1], path[|path| - 1];
            && (AllFit(init, Join(f, t)) && Branch(t, f.key, f.prefixLen, f.dir)
                <==> AllFit(init, f.sibling) && AllFit(path, t) && f.prefixLen < KEY_BITS)
  {
    hide Fits;
    var init, f := path[..|path| - 1], path[|path| - 1];
    assert LeafSet(Join(f, t)) == LeafSet(t) + LeafSet(f.sibling);
    forall x | x in LeafSet(t)
      ensures Fits(path, x.key) <==> Fits(init, x.key) && FitsFrame(f, x.key)
    {
      FitsLast(path, x.key);
    }
  }

  lemma {:induction false} PlugWellFormed(path: seq<Frame>, t: Tree)
    ensures WellFormed(Plug(path, t)) <==> WellFormedPath(path) && WellFormed(t) && AllFit(path, t)
  {
    if path != [] {
      hide AllFit, Branch;
      PlugWellFormed(path[..|path| - 1], Join(path[|path| - 1], t));
      JoinAllFit(path, t);
    }
  }

  // ---- The slab nodes of a path ----

  function FrameNode(f: Frame, h: nat, expiry: nat): Node {
    if f.dir then Inner(f.prefixLen, f.key, f.sibling.handle, h, Earliest(f.sibling), expiry)
    else Inner(f.prefixLen, f.key, h, f.sibling.handle, expiry, Earliest(f.sibling))
  }

  /** The handle and the earliest expiry of what is below the first `i` frames. */
  function HandleAt(path: seq<Frame>, i: nat, h: nat): nat {
    if i < |path| then path[i].handle else h
  }

  function ExpiryAt(path: seq<Frame>, i: nat, expiry: nat): nat
    decreases |path| - i
  {
    if i < |path| then Min(Earliest(path[i].sibling), ExpiryAt(path, i + 1, expiry)) else expiry
  }

  ghost predicate FrameHeld(nodes: seq<Node>, f: Frame, h: nat, expiry: nat) {
    f.handle < |nodes| && nodes[f.handle] == FrameNode(f, h, expiry) && Represents(nodes, f.sibling)
  }

  /** The slab holds the path to a hole filled by a tree with root `h` and the given expiry. */
  ghost predicate Held(nodes: seq<Node>, path: seq<Frame>, h: nat, expiry: nat) {
    forall i :: 0 <= i < |path| ==>
      FrameHeld(nodes, path[i], HandleAt(path, i + 1, h), ExpiryAt(path, i + 1, expiry))
  }

  lemma JoinRepresents(nodes: seq<Node>, f: Frame, t: Tree)
    ensures Represents(nodes, Join(f, t)) <==> FrameHeld(nodes, f, t.handle, Earliest(t)) && Represents(nodes, t)
    ensures Earliest(Join(f, t)) == Min(Earliest(f.sibling), Earliest(t))
  {}

  lemma {:induction false} ExpiryAtInit(path: seq<Frame>, i: nat, expiry: nat)
    requires i < |path|
    ensures ExpiryAt(path, i, expiry)
            == ExpiryAt(path[..|path| - 1], i, Min(Earliest(path[|path| - 1].sibling), expiry))
    decreases |path| - i
  {
    if i < |path| - 1 { ExpiryAtInit(path, i + 1, expiry); }
  }

  lemma HeldInit(nodes: seq<Node>, path: seq<Frame>, h: nat, expiry: nat)
    requires path != []
    ensures var init, f := path[..|path| - 1], path[|path| - 1];
            Held(nodes, path, h, expiry) <==>
              && Held(nodes, init, f.handle, Min(Earliest(f.sibling), expiry))
              && FrameHeld(nodes, f, h, expiry)
  {
    hide FrameHeld, ExpiryAt;
    var n := |path| - 1;
    var init, f := path[..n], path[n];
    var e := Min(Earliest(f.sibling), expiry);
    ExpiryAtEnd(path, expiry);
    if Held(nodes, path, h, expiry) {
      forall i | 0 <= i < n
        ensures FrameHeld(nodes, init[i], HandleAt(init, i + 1, f.handle), ExpiryAt(init, i + 1, e))
      {
        ExpiryAtInit(path, i + 1, expiry);
        assert FrameHeld(nodes, path[i], HandleAt(path, i + 1, h), ExpiryAt(path, i + 1, expiry));
      }
    }
    if Held(nodes, init, f.handle, e) && FrameHeld(nodes, f, h, expiry) {
      forall i | 0 <= i <= n
        ensures FrameHeld(nodes, path[i], HandleAt(path, i + 1, h), ExpiryAt(path, i + 1, expiry))
      {
        if i < n {
          ExpiryAtInit(path, i + 1, expiry);
          assert FrameHeld(nodes, init[i], HandleAt(init, i + 1, f.handle), ExpiryAt(init, i + 1, e));
        }
      }
    }
  }

  lemma ExpiryAtEnd(path: seq<Frame>, expiry: nat)
    ensures ExpiryAt(path, |path|, expiry) == expiry
  {}

  lemma {:induction false} PlugRepresents(nodes: seq<Node>, path: seq<Frame>, t: Tree)
    ensures Represents(nodes, Plug(path, t)) <==> Held(nodes, path, t.handle, Earliest(t)) && Represents(nodes, t)
  {
    if path != [] {
      hide Held, FrameHeld, Represents;
      var f := path[|path| - 1];
      PlugRepresents(nodes, path[..|path| - 1], Join(f, t));
      JoinRepresents(nodes, f, t);
      HeldInit(nodes, path, t.handle, Earliest(t));
    }
  }

  // ---- Changing the subtree in the hole ----

  lemma {:induction false} PlugCount(path: seq<Frame>, t: Tree, t': Tree)
    ensures Count(Plug(path, t')) - Count(Plug(path, t)) == Count(t') - Count(t)
  {
    if path != [] {
      var init, f := path[..|path| - 1], path[|path| - 1];
      PlugCount(init, Join(f, t), Join(f, t'));
    }
  }

  /** The same tree with another root slot. */
  function Moved(t: Tree, h: nat): Tree {
    match t
    case Tip(_, leaf) => Tip(h, leaf)
    case Fork(_, p, key, l, r) => Fork(h, p, key, l, r)
  }

  lemma {:induction false} MovedSame(t: Tree, h: nat)
    ensures LeafSet(Moved(t, h)) == LeafSet(t) && Count(Moved(t, h)) == Count(t)
    ensures Earliest(Moved(t, h)) == Earliest(t) && RootNode(Moved(t, h)) == RootNode(t)
    ensures WellFormed(Moved(t, h)) <==> WellFormed(t)
    ensures Handles(Moved(t, h)) <= Handles(t) + {h}
    ensures Distinct(t) ==> Handles(Moved(t, h)) == Handles(t) - {t.handle} + {h}
    ensures Distinct(t) && h !in Handles(t) - {t.handle} ==> Distinct(Moved(t, h))
  {}

  /** Moving the root's node moves the tree, whatever else happens outside of it. */
  lemma MovedRepresents(nodes: seq<Node>, nodes': seq<Node>, t: Tree, h: nat)
    requires Represents(nodes, t) && Distinct(t) && |nodes'| == |nodes|
    requires forall i :: i in Handles(t) && i != t.handle && i < |nodes| ==> nodes'[i] == nodes[i]
    requires h < |nodes| && nodes'[h] == nodes[t.handle]
    ensures Represents(nodes', Moved(t, h))
  {
    if t.Fork? {
      RepresentsFrame(nodes, nodes', t.left);
      RepresentsFrame(nodes, nodes', t.right);
    }
  }

  /** The path turns the way the key's bits say. */
  ghost predicate Leads(path: seq<Frame>, k: Key) {
    forall i :: 0 <= i < |path| ==> path[i].prefixLen < KEY_BITS && k[path[i].prefixLen] == path[i].dir
  }

  lemma FitsLeads(path: seq<Frame>, k: Key)
    requires Fits(path, k)
    ensures Leads(path, k)
  {
    forall i | 0 <= i < |path| ensures path[i].prefixLen < KEY_BITS && k[path[i].prefixLen] == path[i].dir {
      assert FitsFrame(path[i], k);
    }
  }

  /** No leaf beside the path to a key has that key. */
  lemma {:induction false} OffPath(path: seq<Frame>, x: Leaf, k: Key)
    requires WellFormedPath(path) && Leads(path, k) && x in PathLeaves(path)
    ensures x.key != k
  {
    var init, f := path[..|path| - 1], path[|path| - 1];
    if x !in LeafSet(f.sibling) {
      OffPath(init, x, k);
    }
  }

  /** Leaves other than those with the key. */
  ghost function Without(s: set<Leaf>, k: Key): set<Leaf> {
    set x | x in s && x.key != k
  }

  lemma WithoutOnPath(path: seq<Frame>, t: Tree, k: Key)
    requires WellFormed(Plug(path, t)) && Leads(path, k)
    ensures Without(LeafSet(Plug(path, t)), k) == PathLeaves(path) + Without(LeafSet(t), k)
  {
    hide Plug, WellFormed, WellFormedPath, LeafSet, PathLeaves, Leads;
    PlugWellFormed(path, t);
    PlugSets(path, t);
    forall x | x in PathLeaves(path) ensures x.key != k {
      OffPath(path, x, k);
    }
  }

  // ---- Insertion ----

  /** The fork that replaces `t` when `leaf` branches off above it: the leaf goes to slot `a`, the
      old root to slot `b`, and the fork takes the old root's slot. */
  function Split(t: Tree, leaf: Leaf, a: nat, b: nat): Tree
    requires Shared(RootKey(t), leaf.key) < KEY_BITS
  {
    var p := Shared(RootKey(t), leaf.key);
    if leaf.key[p] then Fork(t.handle, p, leaf.key, Moved(t, b), Tip(a, leaf))
    else Fork(t.handle, p, leaf.key, Tip(a, leaf), Moved(t, b))
  }

  /** Where insertion stops: at a leaf, or at a fork whose prefix the key leaves. */
  ghost predicate StopsAt(t: Tree, k: Key) {
    Shared(RootKey(t), k) < KEY_BITS && (t.Fork? ==> Shared(RootKey(t), k) < t.prefixLen)
  }

  lemma StoppedBranch(t: Tree, k: Key, x: Leaf)
    requires WellFormed(t) && StopsAt(t, k) && x in LeafSet(t)
    ensures var p := Shared(RootKey(t), k); Agree(x.key, k, p) && x.key[p] != k[p]
  {
    if t.Fork? {
      assert Agree(x.key, t.key, t.prefixLen);
    }
  }

  lemma SplitWellFormed(t: Tree, leaf: Leaf, a: nat, b: nat)
    requires WellFormed(t) && StopsAt(t, leaf.key)
    ensures WellFormed(Split(t, leaf, a, b))
    ensures LeafSet(Split(t, leaf, a, b)) == LeafSet(t) + {leaf}
    ensures Count(Split(t, leaf, a, b)) == Count(t) + 1
    ensures Earliest(Split(t, leaf, a, b)) == Min(Earliest(t), leaf.Expiry())
    ensures forall x :: x in LeafSet(t) ==> x.key != leaf.key
  {
    MovedSame(t, b);
    var p := Shared(RootKey(t), leaf.key);
    forall x | x in LeafSet(t) ensures Agree(x.key, leaf.key, p) && x.key[p] != leaf.key[p] {
      StoppedBranch(t, leaf.key, x);
    }
    assert Branch(Moved(t, b), leaf.key, p, !leaf.key[p]);
    assert Branch(Tip(a, leaf), leaf.key, p, leaf.key[p]);
  }

  lemma SplitDistinct(t: Tree, leaf: Leaf, a: nat, b: nat)
    requires Distinct(t) && Shared(RootKey(t), leaf.key) < KEY_BITS
    requires a != b && a !in Handles(t) && b !in Handles(t)
    ensures Distinct(Split(t, leaf, a, b))
    ensures Handles(Split(t, leaf, a, b)) == Handles(t) + {a, b}
  {
    MovedSame(t, b);
    RootIsHandle(t);
  }

  // ---- Writing to a path ----

  lemma {:induction false} FrameInPath(path: seq<Frame>, j: nat, n: nat)
    requires j < n <= |path|
    ensures path[j].handle in PathHandles(path[..n]) && Handles(path[j].sibling) <= PathHandles(path[..n])
    decreases n
  {
    assert path[..n][..n - 1] == path[..n - 1];
    if j < n - 1 { FrameInPath(path, j, n - 1); }
  }

  lemma {:induction false} DistinctPrefix(path: seq<Frame>, n: nat)
    requires DistinctPath(path) && n <= |path|
    ensures DistinctPath(path[..n])
    decreases |path|
  {
    if n < |path| {
      DistinctPrefix(path[..|path| - 1], n);
      assert path[..|path| - 1][..n] == path[..n];
    } else {
      assert path[..n] == path;
    }
  }

  lemma FramesApart(path: seq<Frame>, j: nat, k: nat)
    requires DistinctPath(path) && j < |path| && k < |path|
    ensures path[k].handle !in Handles(path[j].sibling)
    ensures j != k ==> path[k].handle != path[j].handle
  {
    var n := if j < k then k else j;
    DistinctPrefix(path, n + 1);
    assert path[..n + 1][..n] == path[..n];
    if j < k { FrameInPath(path, j, k); }
    if k < j { FrameInPath(path, k, j); }
  }

  /** Writing the node of one frame leaves the others alone. */
  lemma FrameWrite(nodes: seq<Node>, path: seq<Frame>, k: nat, v: Node, j: nat, h: nat, expiry: nat)
    requires DistinctPath(path) && k < |path| && j < |path| && path[k].handle < |nodes|
    requires FrameHeld(nodes, path[j], h, expiry) && j != k
    ensures FrameHeld(nodes[path[k].handle := v], path[j], h, expiry)
  {
    FramesApart(path, j, k);
    RepresentsFrame(nodes, nodes[path[k].handle := v], path[j].sibling);
  }

  lemma FrameRewrite(nodes: seq<Node>, path: seq<Frame>, k: nat, h: nat, old': nat, expiry: nat)
    requires DistinctPath(path) && k < |path| && FrameHeld(nodes, path[k], h, old')
    ensures FrameHeld(nodes[path[k].handle := FrameNode(path[k], h, expiry)], path[k], h, expiry)
  {
    FramesApart(path, k, k);
    RepresentsFrame(nodes, nodes[path[k].handle := FrameNode(path[k], h, expiry)], path[k].sibling);
  }

  /** Once the expiry below agrees, it agrees all the way up. */
  lemma {:induction false} ExpiryAgrees(path: seq<Frame>, i: nat, j: nat, e: nat, e': nat)
    requires j <= i <= |path| && ExpiryAt(path, i, e) == ExpiryAt(path, i, e')
    ensures ExpiryAt(path, j, e) == ExpiryAt(path, j, e')
    decreases i - j
  {
    if j < i { ExpiryAgrees(path, i, j + 1, e, e'); }
  }

  lemma HeldFrame(nodes: seq<Node>, nodes': seq<Node>, path: seq<Frame>, h: nat, expiry: nat)
    requires Held(nodes, path, h, expiry) && |nodes'| == |nodes|
    requires forall i :: i in PathHandles(path) && i < |nodes| ==> nodes'[i] == nodes[i]
    ensures Held(nodes', path, h, expiry)
  {
    hide ExpiryAt, PathHandles;
    forall i | 0 <= i < |path|
      ensures FrameHeld(nodes', path[i], HandleAt(path, i + 1, h), ExpiryAt(path, i + 1, expiry))
    {
      assert FrameHeld(nodes, path[i], HandleAt(path, i + 1, h), ExpiryAt(path, i + 1, expiry));
      FrameInPath(path, i, |path|);
      assert path[..|path|] == path;
      RepresentsFrame(nodes, nodes', path[i].sibling);
    }
  }
}
