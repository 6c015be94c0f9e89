/** Merkle trees of one, two or three layers (src/merkle.rs): compound trees made of base trees of
    one shape, addressed by leaf in the order the trees were given, and proofs through all layers. */
module Merkle {
  import opened Outcome
  import opened Powers
  import opened Sequences
  import opened Shape
  import opened Rows
  import opened Generation

  /** What backs a tree: a store (as its reads answer), base trees, or trees with sub-trees. */
  datatype Data<E> =
    | BaseTree(store: seq<Option<E>>)
    | SubTree(trees: seq<MerkleTree<E>>)
    | TopTree(trees: seq<MerkleTree<E>>)

  /** `base`, `sub` and `top` are the three arities, 0 for a layer that is not there. */
  datatype MerkleTree<E> = MerkleTree(data: Data<E>, leafs: nat, len: nat, rowCount: nat, root: E,
                                      base: nat, sub: nat, top: nat)

  /** What the types of the source guarantee of a child: the base arity of the layer, a base tree below
      the sub-tree layer, a tree with the sub-tree arity of the layer below the top layer. */
  predicate FitsUnder<E>(t: MerkleTree<E>, child: MerkleTree<E>) {
    && child.base == t.base && child.top == 0
    && if t.data.SubTree? then child.data.BaseTree? && child.sub == 0 else !child.data.TopTree? && child.sub == t.sub
  }

  /** What the types of the source guarantee of a tree. */
  predicate Typed<E>(t: MerkleTree<E>)
    decreases t
  {
    && t.base >= 2
    && (t.data.BaseTree? || forall k: nat | k < |t.data.trees| ::
          FitsUnder(t, t.data.trees[k]) && Typed(t.data.trees[k]))
  }

  /** The number of children that the types give a layer; 0 for a base tree. */
  function Arity<E>(t: MerkleTree<E>): nat {
    match t.data
    case BaseTree(_) => 0
    case SubTree(_) => t.sub
    case TopTree(_) => t.top
  }

  /** `read_at`. */
  function ReadAt<E>(t: MerkleTree<E>, i: nat): Result<E>
    decreases t
  {
    if t.data.BaseTree? then
      var store := t.data.store;
      if i < |store| && store[i].Some? then Ok(store[i].value) else Err(Rejected)
    else
      var trees, arity := t.data.trees, Arity(t);
      if arity != |trees| then Err(Rejected)
      else if arity == 0 || t.leafs / arity == 0 then Err(Panicked)
      else
        var k := i / (t.leafs / arity);
        if k >= |trees| || trees[k].leafs == 0 then Err(Panicked) else ReadAt(trees[k], i % trees[k].leafs)
  }

  function SumLeafs<E>(trees: seq<MerkleTree<E>>): nat {
    if trees == [] then 0 else trees[0].leafs + SumLeafs(trees[1..])
  }

  /** `len`: a base tree asks its store. */
  function Len<E>(t: MerkleTree<E>): nat {
    match t.data
    case BaseTree(store) => |store|
    case _ => t.len
  }

  function SumLen<E>(trees: seq<MerkleTree<E>>): nat {
    if trees == [] then 0 else Len(trees[0]) + SumLen(trees[1..])
  }

  function Roots<E>(trees: seq<MerkleTree<E>>): (roots: seq<E>)
    ensures |roots| == |trees|
  {
    seq(|trees|, k requires 0 <= k < |trees| => trees[k].root)
  }

  /** All trees have the row count and the length of the first. */
  predicate SameShape<E>(trees: seq<MerkleTree<E>>) {
    forall k: nat | k < |trees| :: trees[k].rowCount == trees[0].rowCount && Len(trees[k]) == Len(trees[0])
  }

  /** `from_trees`: a layer of `sub` base trees. */
  function FromTrees<E>(node: NodeHash<E>, trees: seq<MerkleTree<E>>, base: nat, sub: nat, top: nat)
    : Result<MerkleTree<E>> {
    if sub == 0 || !SameShape(trees) || |trees| != sub then Err(Rejected)
    else Ok(MerkleTree(SubTree(trees), SumLeafs(trees), SumLen(trees) + 1, trees[0].rowCount + 1, node(Roots(trees), 1),
                       base, sub, top))
  }

  /** `from_sub_trees`: a layer of `top` trees with sub-trees. */
  function FromSubTrees<E>(node: NodeHash<E>, trees: seq<MerkleTree<E>>, base: nat, sub: nat, top: nat)
    : Result<MerkleTree<E>> {
    if top == 0 || !SameShape(trees) || |trees| != top then Err(Rejected)
    else Ok(MerkleTree(TopTree(trees), SumLeafs(trees), SumLen(trees) + 1, trees[0].rowCount + 1, node(Roots(trees), 1),
                       base, sub, top))
  }

  // ---------- well-formed trees ----------

  /** The leaves of a base tree, as its store answers. */
  ghost function BaseLeaves<E>(t: MerkleTree<E>): (leaves: seq<E>)
    requires t.data.BaseTree?
    ensures |leaves| == t.leafs
  {
    seq(t.leafs, i requires 0 <= i < t.leafs =>
      if i < |t.data.store| && t.data.store[i].Some? then t.data.store[i].value else t.root)
  }

  /** A base tree of height h whose store answers for the leaves and from flat position `lo` on. */
  ghost predicate BaseOk<E>(node: NodeHash<E>, t: MerkleTree<E>, h: nat, lo: nat) {
    && t.data.BaseTree? && t.base >= 2 && IsPow2(t.base) && t.sub == 0 && t.top == 0 && h >= 1
    && Perfect(t.base, BaseLeaves(t), h) && t.rowCount == h + 1 && t.len == Geo(t.base, h)
    && Holds(node, t.base, BaseLeaves(t), h, t.data.store, lo)
    && t.root == TreeHash(node, t.base, h, BaseLeaves(t))
  }

  /** How many leaves each child of a layer has. */
  ghost function ChildLeafs<E>(t: MerkleTree<E>): nat
    requires !t.data.BaseTree?
  {
    if t.data.trees == [] then 0 else t.data.trees[0].leafs
  }

  /** As many trees as the arity says, of one size, under one root. */
  ghost predicate LayerOk<E>(node: NodeHash<E>, t: MerkleTree<E>)
    requires !t.data.BaseTree?
  {
    var trees, w := t.data.trees, ChildLeafs(t);
    && |trees| == Arity(t) >= 1 && w >= 1 && t.leafs == Arity(t) * w
    && (forall k: nat | k < |trees| :: trees[k].leafs == w)
    && t.root == node(Roots(trees), 1)
  }

  /** A well-formed tree: one, two or three layers, all base trees of height h. */
  ghost predicate TreeOk<E>(node: NodeHash<E>, t: MerkleTree<E>, h: nat, lo: nat)
    decreases t
  {
    if t.data.BaseTree? then BaseOk(node, t, h, lo)
    else
      && LayerOk(node, t)
      && forall k: nat | k < |t.data.trees| ::
           FitsUnder(t, t.data.trees[k]) && TreeOk(node, t.data.trees[k], h, lo)
  }

  /** Proof generation asks no more of a well-formed tree than its types do. */
  lemma {:induction false} WellFormedIsTyped<E>(node: NodeHash<E>, t: MerkleTree<E>, h: nat, lo: nat)
    requires TreeOk(node, t, h, lo)
    ensures Typed(t)
    decreases t
  {
    hide BaseOk, Roots;
    if t.data.BaseTree? {
      assert t.base >= 2 by { BaseSize(node, t, h, lo); }
    } else {
      forall k: nat | k < |t.data.trees|
        ensures FitsUnder(t, t.data.trees[k]) && Typed(t.data.trees[k])
      {
        WellFormedIsTyped(node, t.data.trees[k], h, lo);
      }
      assert t.data.trees[0].base == t.base;
    }
  }

  /** `from_data_store`: a tree over a store that was built before. Arity 1 is excluded. */
  method FromDataStore<E>(store: seq<Option<E>>, leafs: nat, base: nat, sub: nat, top: nat,
                          ghost node: NodeHash<E>, ghost h: nat, ghost leaves: seq<E>, ghost lo: nat)
    returns (r: Result<MerkleTree<E>>)
    requires base != 1
    ensures r.Ok? <==> && sub == 0 && top == 0
                       && IsPow2(leafs) && IsPow2(base) && leafs >= base >= 2 && IsPower(base, leafs)
                       && |store| == DivSum(leafs, base) && |store| > 0 && store[|store| - 1].Some?
    ensures r.Ok? ==> r.value.data == BaseTree(store) && r.value.leafs == leafs && r.value.base == base
    ensures && sub == 0 && top == 0 && IsPow2(base) && base >= 2
            && h >= 1 && Perfect(base, leaves, h) && leafs == |leaves|
            && Holds(node, base, leaves, h, store, lo) && lo < |store| ==>
              r.Ok? && BaseOk(node, r.value, h, lo) && BaseLeaves(r.value) == leaves
  {
    hide Pow, Geo, Flat, Row, TreeHash, DivSum, RowCount, IsPow2, IsPower, BaseLeaves;
    ghost var good := && sub == 0 && top == 0 && IsPow2(base) && base >= 2
                      && h >= 1 && Perfect(base, leaves, h) && leafs == |leaves|
                      && Holds(node, base, leaves, h, store, lo) && lo < |store|;
    if good { StoreOfTree(node, store, base, h, leaves, lo); }
    NextPow2Fixed(leafs);
    NextPow2Fixed(base);
    if sub != 0 || top != 0 || NextPow2(leafs) != leafs || NextPow2(base) != base {
      return Err(Rejected);
    }
    var treeLen := GetMerkleTreeLen(leafs, base);
    if treeLen != Ok(|store|) {
      return Err(Rejected);
    }
    var valid := IsMerkleTreeSizeValid(leafs, base);
    if !valid {
      return Err(Rejected);
    }
    if |store| == 0 {
      return Err(Panicked);
    }
    var root := store[|store| - 1];
    if root.None? {
      return Err(Rejected);
    }
    var t := MerkleTree(BaseTree(store), leafs, |store|, RowCount(leafs, base), root.value, base, 0, 0);
    if good { LeavesOfStore(node, t, h, leaves, lo); }
    return Ok(t);
  }

  /** The shape and the root of a store that holds a tree. */
  lemma StoreOfTree<E>(node: NodeHash<E>, store: seq<Option<E>>, b: nat, h: nat, leaves: seq<E>, lo: nat)
    requires b >= 2 && IsPow2(b) && h >= 1 && Perfect(b, leaves, h) && Holds(node, b, leaves, h, store, lo)
    requires lo < |store|
    ensures IsPow2(|leaves|) && |leaves| >= b && IsPower(b, |leaves|) && |store| == DivSum(|leaves|, b) == Geo(b, h)
    ensures RowCount(|leaves|, b) == h + 1 && store[|store| - 1] == Some(TreeHash(node, b, h, leaves))
  {
    hide Pow, Geo, Flat, Row, TreeHash, DivSum, RowCount;
    TreeShape(b, h);
    RowCountPerfect(b, h);
    RootIsTreeHash(node, b, leaves, h);
  }

  lemma LeavesOfStore<E>(node: NodeHash<E>, t: MerkleTree<E>, h: nat, leaves: seq<E>, lo: nat)
    requires t.data.BaseTree? && t.base >= 2 && Perfect(t.base, leaves, h) && t.leafs == |leaves|
    requires Holds(node, t.base, leaves, h, t.data.store, lo)
    ensures BaseLeaves(t) == leaves
  {
    hide Pow, Geo, Flat, Row;
    FlatPrefix(node, t.base, leaves, 0, h);
    FlatZero(node, t.base, leaves);
  }

  /** All leaves, in the order the trees were given. */
  ghost function AllLeaves<E>(t: MerkleTree<E>): seq<E>
    decreases t, 1
  {
    if t.data.BaseTree? then BaseLeaves(t) else Flatten(Parts(t))
  }

  /** The leaves of each child. */
  ghost function Parts<E>(t: MerkleTree<E>): (parts: seq<seq<E>>)
    requires !t.data.BaseTree?
    ensures |parts| == |t.data.trees|
    decreases t, 0
  {
    var trees := t.data.trees;
    seq(|trees|, k requires 0 <= k < |trees| => AllLeaves(trees[k]))
  }

  // ---------- building compound trees ----------

  /** The counts of a layer grow with every tree by those of the tree. */
  lemma {:induction false} SumsGrow<E>(trees: seq<MerkleTree<E>>, t: MerkleTree<E>)
    ensures SumLeafs(trees + [t]) == SumLeafs(trees) + t.leafs && SumLen(trees + [t]) == SumLen(trees) + Len(t)
    decreases |trees|
  {
    if trees == [] {
      assert (trees + [t])[1..] == [];
    } else {
      assert (trees + [t])[1..] == trees[1..] + [t];
      SumsGrow(trees[1..], t);
    }
  }

  lemma {:induction false} EqualSums<E>(trees: seq<MerkleTree<E>>, w: nat, n: nat)
    requires forall k: nat | k < |trees| :: trees[k].leafs == w && Len(trees[k]) == n
    ensures SumLeafs(trees) == |trees| * w && SumLen(trees) == |trees| * n
    decreases |trees|
  {
    if trees != [] {
      EqualSums(trees[1..], w, n);
      assert |trees| * w == w + (|trees| - 1) * w && |trees| * n == n + (|trees| - 1) * n;
    }
  }

  /** A layer over well-formed trees of one size, one length and one row count is well-formed; its leaves and
      nodes are those of the parts, plus one node for the root. */
  lemma LayerOver<E>(node: NodeHash<E>, t: MerkleTree<E>, h: nat, lo: nat, w: nat, n: nat)
    requires !t.data.BaseTree? && |t.data.trees| == Arity(t) >= 1 && w >= 1
    requires forall k: nat | k < |t.data.trees| ::
               && FitsUnder(t, t.data.trees[k]) && TreeOk(node, t.data.trees[k], h, lo)
               && t.data.trees[k].leafs == w && Len(t.data.trees[k]) == n
    requires t.leafs == SumLeafs(t.data.trees) && t.len == SumLen(t.data.trees) + 1
    requires t.root == node(Roots(t.data.trees), 1)
    ensures TreeOk(node, t, h, lo) && t.leafs == Arity(t) * w && Len(t) == Arity(t) * n + 1
  {
    hide BaseOk, Roots;
    EqualSums(t.data.trees, w, n);
    assert t.data.trees[0].leafs == w;
  }

  lemma BaseSize<E>(node: NodeHash<E>, t: MerkleTree<E>, h: nat, lo: nat)
    requires t.data.BaseTree? && TreeOk(node, t, h, lo)
    ensures t.leafs == Pow(t.base, h) >= 1 && Len(t) == Geo(t.base, h) && t.rowCount == h + 1
    ensures t.sub == 0 && t.top == 0 && t.base >= 2
  {}

  /** What `from_trees` accepts: as many trees as the sub-tree arity, any two of them with the same number of
      rows and of nodes. */
  lemma FromTreesAccepts<E>(node: NodeHash<E>, trees: seq<MerkleTree<E>>, base: nat, sub: nat, top: nat)
    ensures var r := FromTrees(node, trees, base, sub, top);
            && (r.Ok? <==> && |trees| == sub > 0
                           && forall j: nat, k: nat | j < sub && k < sub ::
                                trees[j].rowCount == trees[k].rowCount && Len(trees[j]) == Len(trees[k]))
            && (r.Err? ==> r == Err(Rejected))
  {}

  /** And `from_sub_trees`, with the top arity. */
  lemma FromSubTreesAccepts<E>(node: NodeHash<E>, trees: seq<MerkleTree<E>>, base: nat, sub: nat, top: nat)
    ensures var r := FromSubTrees(node, trees, base, sub, top);
            && (r.Ok? <==> && |trees| == top > 0
                           && forall j: nat, k: nat | j < top && k < top ::
                                trees[j].rowCount == trees[k].rowCount && Len(trees[j]) == Len(trees[k]))
            && (r.Err? ==> r == Err(Rejected))
  {}

  /** Well-formed base trees make a layer exactly if there are as many as the arity says, all of one height. */
  lemma FromTreesExactly<E>(node: NodeHash<E>, trees: seq<MerkleTree<E>>, base: nat, sub: nat, top: nat, hs: seq<nat>,
                            lo: nat)
    requires |hs| == |trees|
    requires forall k: nat | k < |hs| ::
               trees[k].base == base && trees[k].data.BaseTree? && TreeOk(node, trees[k], hs[k], lo)
    ensures FromTrees(node, trees, base, sub, top).Ok? <==>
              |trees| == sub > 0 && forall j: nat, k: nat | j < |hs| && k < |hs| :: hs[j] == hs[k]
    ensures FromSubTrees(node, trees, base, sub, top).Ok? <==>
              |trees| == top > 0 && forall j: nat, k: nat | j < |hs| && k < |hs| :: hs[j] == hs[k]
  {
    hide Pow, Geo, TreeOk, Roots, SumLeafs, SumLen;
    forall k: nat | k < |hs|
      ensures Len(trees[k]) == Geo(base, hs[k]) && trees[k].rowCount == hs[k] + 1
    {
      BaseSize(node, trees[k], hs[k], lo);
    }
    FromTreesAccepts(node, trees, base, sub, top);
    FromSubTreesAccepts(node, trees, base, sub, top);
  }

  /** Two-layer trees, as `from_trees` makes them of base trees of height hs[k], make a top layer exactly if there
      are as many as the arity says, all of one height. */
  lemma FromSubTreesExactly<E>(node: NodeHash<E>, trees: seq<MerkleTree<E>>, base: nat, sub: nat, top: nat,
                               hs: seq<nat>)
    requires |hs| == |trees|
    requires forall k: nat | k < |hs| :: trees[k].rowCount == hs[k] + 2 && Len(trees[k]) == sub * Geo(base, hs[k]) + 1
    ensures FromSubTrees(node, trees, base, sub, top).Ok? <==>
              |trees| == top > 0 && forall j: nat, k: nat | j < |hs| && k < |hs| :: hs[j] == hs[k]
  {
    hide Geo;
    FromSubTreesAccepts(node, trees, base, sub, top);
  }

  /** `from_trees`: base trees of one height always make a two-layer tree, whatever the top arity of its type. */
  lemma FromTreesOk<E>(node: NodeHash<E>, trees: seq<MerkleTree<E>>, base: nat, sub: nat, top: nat, h: nat, lo: nat)
    requires |trees| == sub >= 1
    requires forall k: nat | k < sub ::
               trees[k].base == base && trees[k].data.BaseTree? && TreeOk(node, trees[k], h, lo)
    ensures var r := FromTrees(node, trees, base, sub, top);
            && r.Ok? && TreeOk(node, r.value, h, lo) && r.value.data == SubTree(trees)
            && r.value.base == base && r.value.sub == sub && r.value.top == top
            && r.value.leafs == sub * Pow(base, h) && Len(r.value) == sub * Geo(base, h) + 1
            && r.value.rowCount == h + 2
  {
    hide Pow, Geo, TreeOk, Roots, SumLeafs, SumLen;
    forall k: nat | k < sub
      ensures trees[k].leafs == Pow(base, h) >= 1 && Len(trees[k]) == Geo(base, h) && trees[k].rowCount == h + 1
      ensures trees[k].sub == 0 && trees[k].top == 0
    {
      BaseSize(node, trees[k], h, lo);
    }
    assert trees[0].base == base;
    LayerOver(node, FromTrees(node, trees, base, sub, top).value, h, lo, Pow(base, h), Geo(base, h));
  }

  /** `from_sub_trees` over two-layer trees of one shape always makes a three-layer tree. */
  lemma FromSubTreesOk<E>(node: NodeHash<E>, trees: seq<MerkleTree<E>>, base: nat, sub: nat, top: nat, h: nat, lo: nat)
    requires |trees| == top >= 1
    requires forall k: nat | k < top ::
               && trees[k].base == base && trees[k].sub == sub && trees[k].top == 0 && trees[k].data.SubTree?
               && TreeOk(node, trees[k], h, lo)
               && Len(trees[k]) == sub * Geo(base, h) + 1 && trees[k].rowCount == h + 2
    ensures var r := FromSubTrees(node, trees, base, sub, top);
            && r.Ok? && TreeOk(node, r.value, h, lo) && r.value.data == TopTree(trees)
            && r.value.base == base && r.value.sub == sub && r.value.top == top
            && r.value.leafs == top * (sub * Pow(base, h)) && Len(r.value) == top * (sub * Geo(base, h) + 1) + 1
            && r.value.rowCount == h + 3
  {
    hide Pow, Geo, TreeOk, Roots, SumLeafs, SumLen;
    forall k: nat | k < top
      ensures trees[k].leafs == sub * Pow(base, h) >= 1
    {
      SubSize(node, trees[k], h, lo);
    }
    assert trees[0].base == base;
    LayerOver(node, FromSubTrees(node, trees, base, sub, top).value, h, lo, sub * Pow(base, h), sub * Geo(base, h) + 1);
  }

  lemma SubSize<E>(node: NodeHash<E>, t: MerkleTree<E>, h: nat, lo: nat)
    requires t.data.SubTree? && TreeOk(node, t, h, lo)
    ensures t.leafs == t.sub * Pow(t.base, h) >= 1 && ChildLeafs(t) == Pow(t.base, h)
  {
    hide Pow, BaseOk, Roots;
    assert FitsUnder(t, t.data.trees[0]) && TreeOk(node, t.data.trees[0], h, lo);
    BaseSize(node, t.data.trees[0], h, lo);
    MulMono(1, t.sub, Pow(t.base, h));
  }

  /** `from_sub_trees` takes base trees as well, when the type of the tree has no sub-tree arity. */
  lemma FromSubTreesOverBase<E>(node: NodeHash<E>, trees: seq<MerkleTree<E>>, base: nat, top: nat, h: nat, lo: nat)
    requires |trees| == top >= 1
    requires forall k: nat | k < top ::
               trees[k].base == base && trees[k].data.BaseTree? && TreeOk(node, trees[k], h, lo)
    ensures var r := FromSubTrees(node, trees, base, 0, top);
            && r.Ok? && TreeOk(node, r.value, h, lo) && r.value.data == TopTree(trees)
            && r.value.base == base && r.value.sub == 0 && r.value.top == top
            && r.value.leafs == top * Pow(base, h) && Len(r.value) == top * Geo(base, h) + 1
            && r.value.rowCount == h + 2
  {
    hide Pow, Geo, TreeOk, Roots, SumLeafs, SumLen;
    forall k: nat | k < top
      ensures trees[k].leafs == Pow(base, h) >= 1 && Len(trees[k]) == Geo(base, h) && trees[k].rowCount == h + 1
      ensures trees[k].sub == 0 && trees[k].top == 0
    {
      BaseSize(node, trees[k], h, lo);
    }
    assert trees[0].base == base;
    LayerOver(node, FromSubTrees(node, trees, base, 0, top).value, h, lo, Pow(base, h), Geo(base, h));
  }

  // ---------- reading ----------

  /** The outer arithmetic of a layer: which child holds leaf i, and where. */
  lemma ChildOfLeaf<E>(node: NodeHash<E>, t: MerkleTree<E>, i: nat)
    requires !t.data.BaseTree? && LayerOk(node, t) && i < t.leafs
    ensures var w := ChildLeafs(t);
            && w > 0 && Arity(t) > 0 && t.leafs / Arity(t) == w
            && i / w < |t.data.trees| && i % w < w == t.data.trees[i / w].leafs
  {
    hide Roots;
    MulDiv(ChildLeafs(t), Arity(t));
    GroupFits(i, ChildLeafs(t), Arity(t));
  }

  /** Reading leaf i of a tree reads the i-th leaf of all its base trees in a row. */
  lemma {:induction false} ReadsInOrder<E>(node: NodeHash<E>, t: MerkleTree<E>, h: nat, lo: nat, i: nat)
    requires TreeOk(node, t, h, lo) && i < t.leafs
    ensures i < |AllLeaves(t)| == t.leafs && ReadAt(t, i) == Ok(AllLeaves(t)[i])
    decreases t
  {
    hide Pow, Geo, Row, Flat, TreeHash, Flatten, Roots, AllLeaves;
    if t.data.BaseTree? {
      ReadsBase(node, t, h, lo, i);
    } else {
      var w := ChildLeafs(t);
      ChildOfLeaf(node, t, i);
      PartsFit(node, t, h, lo);
      LeavesOfLayer(t, i / w);
      ReadsInOrder(node, t.data.trees[i / w], h, lo, i % w);
      FlattenAt(Parts(t), w, i);
    }
  }

  lemma ReadsBase<E>(node: NodeHash<E>, t: MerkleTree<E>, h: nat, lo: nat, i: nat)
    requires TreeOk(node, t, h, lo) && t.data.BaseTree? && i < t.leafs
    ensures AllLeaves(t) == BaseLeaves(t) && ReadAt(t, i) == Ok(BaseLeaves(t)[i])
  {
    hide Pow, Geo, Row, Flat, TreeHash;
    HoldsLeaves(node, t.base, BaseLeaves(t), h, t.data.store, lo);
  }

  /** `read_at` on a base tree takes any index of the flat tree: every node that the store kept is read, the
      leaves among them, and nothing from the end of the tree on. */
  lemma ReadsFlat<E>(node: NodeHash<E>, t: MerkleTree<E>, h: nat, lo: nat, at: nat)
    requires BaseOk(node, t, h, lo)
    ensures |Flat(node, t.base, BaseLeaves(t), h)| == Len(t)
    ensures at < Len(t) && (at < t.leafs || at >= lo) ==>
              ReadAt(t, at) == Ok(Flat(node, t.base, BaseLeaves(t), h)[at])
    ensures at >= Len(t) ==> ReadAt(t, at) == Err(Rejected)
  {
    hide Pow, Geo, Row, Flat, TreeHash, BaseLeaves;
  }

  /** On a compound tree, where the index is not checked, one past the last leaf panics. */
  lemma ReadsPastEnd<E>(node: NodeHash<E>, t: MerkleTree<E>, h: nat, lo: nat, i: nat)
    requires TreeOk(node, t, h, lo) && !t.data.BaseTree? && i >= t.leafs
    ensures ReadAt(t, i) == Err(Panicked)
  {
    hide BaseOk, Roots, TreeOk, FitsUnder;
    LayerOfTree(node, t, h, lo);
    MulDiv(ChildLeafs(t), Arity(t));
    PastLast(i, ChildLeafs(t), Arity(t));
  }

  lemma LayerOfTree<E>(node: NodeHash<E>, t: MerkleTree<E>, h: nat, lo: nat)
    requires TreeOk(node, t, h, lo) && !t.data.BaseTree?
    ensures LayerOk(node, t)
  {
    hide LayerOk, BaseOk;
  }

  lemma PastLast(i: nat, w: nat, n: nat)
    requires w > 0 && i >= n * w
    ensures i / w >= n
  {
    if i / w < n { MulMono(i / w + 1, n, w); }
  }

  /** A layer with another number of children than its arity is not read at all. */
  lemma ReadsMisshapen<E>(t: MerkleTree<E>, i: nat)
    requires !t.data.BaseTree? && Arity(t) != |t.data.trees|
    ensures ReadAt(t, i) == Err(Rejected)
  {}

  lemma LeavesOfLayer<E>(t: MerkleTree<E>, k: nat)
    requires !t.data.BaseTree? && k < |t.data.trees|
    ensures AllLeaves(t) == Flatten(Parts(t)) && Parts(t)[k] == AllLeaves(t.data.trees[k])
  {}

  /** Every child has as many leaves as the first. */
  lemma {:induction false} PartsFit<E>(node: NodeHash<E>, t: MerkleTree<E>, h: nat, lo: nat)
    requires TreeOk(node, t, h, lo) && !t.data.BaseTree?
    ensures ChildLeafs(t) >= 1 && forall k: nat | k < |Parts(t)| :: |Parts(t)[k]| == ChildLeafs(t)
    decreases t, 0
  {
    hide BaseOk, Roots, BaseLeaves, Flatten;
    forall k: nat | k < |Parts(t)|
      ensures |Parts(t)[k]| == ChildLeafs(t)
    {
      LeavesCount(node, t.data.trees[k], h, lo);
    }
  }

  lemma {:induction false} LeavesCount<E>(node: NodeHash<E>, t: MerkleTree<E>, h: nat, lo: nat)
    requires TreeOk(node, t, h, lo)
    ensures |AllLeaves(t)| == t.leafs && t.leafs >= 1
    decreases t, 1
  {
    hide Pow, Geo, Row, Flat, TreeHash, Flatten, Roots;
    if t.data.BaseTree? {
      BaseSize(node, t, h, lo);
    } else {
      PartsFit(node, t, h, lo);
      MulMono(1, Arity(t), ChildLeafs(t));
      FlattenAt(Parts(t), ChildLeafs(t), 0);
    }
  }
}
