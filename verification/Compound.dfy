/** Proofs through the layers of a compound tree: generation from full stores and from level
    caches, completeness of validation, and its soundness. */
module Compound {
  import opened Outcome
  import opened Powers
  import opened Sequences
  import opened Shape
  import opened Rows
  import opened Proofs
  import opened Paths
  import opened Soundness
  import opened LevelCacheStores
  import opened Generation
  import opened Merkle

  // ---------- the proofs a tree owes ----------

  /** A proof for a leaf of child k, wrapped in the layer above. */
  ghost function LayerProof<E>(t: MerkleTree<E>, k: nat, inner: Proof<E>): Proof<E>
    requires !t.data.BaseTree?
  {
    Proof(Some(inner), t.top, t.sub, Without(Roots(t.data.trees), k, 0, |t.data.trees|) + [t.root], [k])
  }

  /** The proof owed for leaf i, whatever the number of layers. */
  ghost function OwedProof<E>(node: NodeHash<E>, t: MerkleTree<E>, h: nat, lo: nat, i: nat): Proof<E>
    requires TreeOk(node, t, h, lo) && i < t.leafs
    decreases t
  {
    if t.data.BaseTree? then BaseProof(node, t.base, BaseLeaves(t), h, i)
    else
      ChildFound(node, t, h, lo, i);
      var (k, leaf) := Locate(t, i).value;
      LayerProof(t, k, OwedProof(node, t.data.trees[k], h, lo, leaf))
  }

  // ---------- generation ----------

  /** The lemma of a layer: every root but the one on the path. */
  method OtherRoots<E>(trees: seq<MerkleTree<E>>, k: nat) returns (nodes: seq<E>)
    ensures nodes == Without(Roots(trees), k, 0, |trees|)
  {
    hide Without;
    nodes := [];
    ghost var roots, n := Roots(trees), |trees|;
    for j := 0 to |trees|
      invariant nodes + Without(roots, k, j, n) == Without(roots, k, 0, n)
    {
      WithoutFirst(roots, k, j, n);
      if j != k {
        ghost var before := nodes;
        nodes := nodes + [trees[j].root];
        assert nodes + Without(roots, k, j + 1, n) == before + ([roots[j]] + Without(roots, k, j + 1, n));
      }
    }
    NoneLeft(roots, k, n);
  }

  /** The child that holds leaf i of a layer, and the index there, or the panic of a bad shape. */
  function Locate<E>(t: MerkleTree<E>, i: nat): (r: Result<(nat, nat)>)
    requires !t.data.BaseTree?
    ensures r.Ok? ==> r.value.0 < |t.data.trees| && i < t.leafs
    ensures Arity(t) == 0 ==> r == Err(Rejected)
  {
    var trees, arity := t.data.trees, Arity(t);
    PastTheEnd(t.leafs, arity, i);
    if arity == 0 then Err(Rejected)
    else if t.leafs / arity == 0 then Err(Panicked)
    else if arity != |trees| then Err(Rejected)
    else
      var k := i / (t.leafs / arity);
      if k >= |trees| || trees[k].leafs == 0 then Err(Panicked) else Ok((k, i % trees[k].leafs))
  }

  lemma PastTheEnd(leafs: nat, arity: nat, i: nat)
    ensures arity > 0 && leafs / arity > 0 && i >= leafs ==> i / (leafs / arity) >= arity
  {
    if arity > 0 && leafs / arity > 0 && i >= leafs {
      PastLast(i, leafs / arity, arity);
    }
  }

  lemma LocatePastEnd<E>(node: NodeHash<E>, t: MerkleTree<E>, h: nat, lo: nat, i: nat)
    requires TreeOk(node, t, h, lo) && !t.data.BaseTree? && i >= t.leafs
    ensures Locate(t, i) == Err(Panicked)
  {
    hide BaseOk, Roots, TreeOk, FitsUnder;
    LayerOfTree(node, t, h, lo);
    MulDiv(ChildLeafs(t), Arity(t));
    PastLast(i, ChildLeafs(t), Arity(t));
  }

  /** On a well-formed tree that child is found. */
  lemma ChildFound<E>(node: NodeHash<E>, t: MerkleTree<E>, h: nat, lo: nat, i: nat)
    requires TreeOk(node, t, h, lo) && !t.data.BaseTree? && i < t.leafs
    ensures Locate(t, i).Ok?
    ensures var (k, leaf) := Locate(t, i).value;
            && k < |t.data.trees| && leaf < t.data.trees[k].leafs && i == k * ChildLeafs(t) + leaf
            && FitsUnder(t, t.data.trees[k]) && TreeOk(node, t.data.trees[k], h, lo)
  {
    hide BaseOk, BaseLeaves, Roots;
    ChildOfLeaf(node, t, i);
  }

  /** A tree all of whose stores have the size of a tree of height h and answer for their leaves. */
  ghost predicate Answering<E>(t: MerkleTree<E>, h: nat)
    decreases t
  {
    if t.data.BaseTree? then
      && t.base >= 2 && IsPow2(t.base) && h >= 1
      && t.sub == 0 && t.top == 0 && t.rowCount == h + 1 && LeavesAnswer(t.base, BaseLeaves(t), h, t.data.store)
    else
      forall k: nat | k < |t.data.trees| :: Answering(t.data.trees[k], h)
  }

  /** What comes of a proof for leaf i of such a tree if d rows are taken as discarded, whatever rows its
      stores have lost. */
  ghost function Obtained<E>(node: NodeHash<E>, t: MerkleTree<E>, h: nat, d: nat, i: nat): Option<Proof<E>>
    requires Answering(t, h) && d < h
    decreases t
  {
    if i >= t.leafs then None
    else if t.data.BaseTree? then
      Collected(BaseLeaves(t)[i], CachedWalk(node, t.base, BaseLeaves(t), h, d, i, t.data.store), t.root)
    else
      match Locate(t, i)
      case Err(_) => None
      case Ok((k, leaf)) => Wrapped(t, k, Obtained(node, t.data.trees[k], h, d, leaf))
  }

  ghost function Wrapped<E>(t: MerkleTree<E>, k: nat, inner: Option<Proof<E>>): Option<Proof<E>>
    requires !t.data.BaseTree?
  {
    if inner.Some? then Some(LayerProof(t, k, inner.value)) else None
  }

  /** `gen_proof`: exactly when a proof comes out, and which one, even from stores that lost rows; the proof
      owed if they lost none. On a compound tree the index is not checked before it is used, and one past
      the end panics. */
  method GenProof<E>(t: MerkleTree<E>, i: nat, ghost node: NodeHash<E>, ghost h: nat) returns (r: Result<Proof<E>>)
    requires Typed(t)
    ensures i >= t.leafs ==> r.Err?
    ensures TreeOk(node, t, h, 0) && i >= t.leafs ==>
              r == Err(if t.data.BaseTree? then Rejected else Panicked)
    ensures if t.data.BaseTree? then t.sub != 0 || t.top != 0 || !IsPow2(t.leafs) ==> r == Err(Rejected)
            else Arity(t) == 0 ==> r == Err(Rejected)
    ensures h >= 1 && Answering(t, h) ==>
              match Obtained(node, t, h, 0, i) case Some(proof) => r == Ok(proof) case None => r.Err?
    ensures h >= 1 && TreeOk(node, t, h, 0) && i < t.leafs ==> r == Ok(OwedProof(node, t, h, 0, i))
    decreases t
  {
    hide Pow, Row, Flat, Geo, TreeHash, BaseLeaves, Holds, Locate, BaseProof, Without, Roots, CachedWalk, Collected,
         IsPow2, OwedProof, LeavesAnswer, CacheStart;
    if h >= 1 && TreeOk(node, t, h, 0) && i < t.leafs { FullIsOwed(node, t, h, i); }
    if t.data.BaseTree? {
      if t.sub != 0 || t.top != 0 {
        return Err(Rejected);
      }
      r := GenBaseProof(t.data.store, t.leafs, t.rowCount, t.root, t.base, i, node, h, BaseLeaves(t));
      return;
    }
    var trees := t.data.trees;
    if TreeOk(node, t, h, 0) && i >= t.leafs { LocatePastEnd(node, t, h, 0, i); }
    var at := Locate(t, i);
    if at.Err? {
      return Err(at.why);
    }
    var (k, leaf) := at.value;
    var inner := GenProof(trees[k], leaf, node, h);
    if inner.Err? {
      return Err(inner.why);
    }
    var nodes := OtherRoots(trees, k);
    LayerIsAccepted(t, i);
    r := NewProof(t.base, t.top, t.sub, Some(inner.value), nodes + [t.root], [k]);
  }

  /** What a cached proof needs of a tree: stores that kept the rows above the first `kept` ones, and
      a request that covers those. */
  ghost predicate CacheReady<E>(node: NodeHash<E>, t: MerkleTree<E>, h: nat, kept: nat, rows: Option<nat>) {
    && t.base >= 2 && BUILD_CHUNK_NODES % t.base == 0 && Covers(t.base, h, rows, kept)
    && TreeOk(node, t, h, CacheStart(t.base, h, kept))
  }

  /** `gen_cached_proof`: exactly when a proof comes out, and which one; the proof the full tree owes if
      the stores kept what is not taken as discarded. */
  method GenCachedProof<E>(t: MerkleTree<E>, i: nat, rows: Option<nat>, node: NodeHash<E>, fill: E, ghost h: nat,
                           ghost kept: nat)
    returns (r: Result<Proof<E>>)
    requires Typed(t)
    ensures i >= t.leafs ==> r == Err(Rejected)
    ensures if t.data.BaseTree? then t.sub != 0 || t.top != 0 || !IsPow2(t.leafs) ==> r == Err(Rejected)
            else Arity(t) == 0 ==> r == Err(Rejected)
    ensures h >= 1 && Answering(t, h) && BUILD_CHUNK_NODES % t.base == 0 ==>
              match Obtained(node, t, h, Taken(t.base, h, rows), i)
              case Some(proof) => r == Ok(proof)
              case None => r.Err?
    ensures CacheReady(node, t, h, kept, rows) && i < t.leafs ==>
              r == Ok(OwedProof(node, t, h, CacheStart(t.base, h, kept), i))
    ensures IsPow2(t.base) && BUILD_CHUNK_NODES % t.base != 0 ==> r.Err?
    decreases t
  {
    hide Pow, Row, Flat, Geo, TreeHash, BaseLeaves, Holds, Locate, BaseProof, Without, Roots, Taken,
         CacheStart, CachedWalk, Collected, IsPow2, OwedProof, CacheReady, LeavesAnswer;
    if CacheReady(node, t, h, kept, rows) && i < t.leafs { RequestIsOwed(node, t, h, kept, rows, i); }
    if i >= t.leafs {
      return Err(Rejected);
    }
    if t.data.BaseTree? {
      if t.sub != 0 || t.top != 0 {
        return Err(Rejected);
      }
      r := GenCachedBaseProof(t.data.store, t.leafs, t.rowCount, t.root, t.base, i, rows, node, fill, h, BaseLeaves(t));
      return;
    }
    var trees := t.data.trees;
    var at := Locate(t, i);
    LayerIsAccepted(t, i);
    if at.Err? {
      return Err(at.why);
    }
    var (k, leaf) := at.value;
    var inner := GenCachedProof(trees[k], leaf, rows, node, fill, h, kept);
    if inner.Err? {
      return Err(inner.why);
    }
    var nodes := OtherRoots(trees, k);
    r := NewProof(t.base, t.top, t.sub, Some(inner.value), nodes + [t.root], [k]);
  }

  /** A layer in which a child is found has an arity, and its proofs are not checked for length. */
  lemma LayerIsAccepted<E>(t: MerkleTree<E>, i: nat)
    requires !t.data.BaseTree?
    ensures Locate(t, i).Ok? ==> t.top != 0 || t.sub != 0
  {}

  /** Stores that kept the rows not taken as discarded give the proof that the full tree owes. */
  lemma {:induction false} ObtainedIsOwed<E>(node: NodeHash<E>, t: MerkleTree<E>, h: nat, lo: nat, kept: nat, d: nat,
                                             i: nat)
    requires t.base >= 2 && kept <= d < h && TreeOk(node, t, h, lo) && i < t.leafs && lo <= CacheStart(t.base, h, kept)
    ensures Answering(t, h) && Obtained(node, t, h, d, i) == Some(OwedProof(node, t, h, lo, i))
    decreases t
  {
    hide BaseOk, BaseLeaves, Locate, LayerProof, CacheStart, LayerOk, Pow;
    TreeAnswers(node, t, h, lo);
    if t.data.BaseTree? {
      BaseObtainedIsOwed(node, t, h, lo, kept, d, i);
    } else {
      ChildFound(node, t, h, lo, i);
      var (k, leaf) := Locate(t, i).value;
      ObtainedIsOwed(node, t.data.trees[k], h, lo, kept, d, leaf);
    }
  }

  lemma BaseObtainedIsOwed<E>(node: NodeHash<E>, t: MerkleTree<E>, h: nat, lo: nat, kept: nat, d: nat, i: nat)
    requires t.base >= 2 && kept <= d < h && TreeOk(node, t, h, lo) && i < t.leafs && lo <= CacheStart(t.base, h, kept)
    requires t.data.BaseTree? && Answering(t, h)
    ensures Obtained(node, t, h, d, i) == Some(OwedProof(node, t, h, lo, i))
  {
    hide Pow, Row, Flat, Geo, TreeHash, BaseLeaves, BaseProof, CacheStart, CachedWalk, Collected, IsPow2;
    CachedWalkIsOwed(node, t.base, BaseLeaves(t), h, d, i, t.data.store, kept);
  }

  lemma FullIsOwed<E>(node: NodeHash<E>, t: MerkleTree<E>, h: nat, i: nat)
    requires h >= 1 && TreeOk(node, t, h, 0) && i < t.leafs && t.base >= 2
    ensures Answering(t, h) && Obtained(node, t, h, 0, i) == Some(OwedProof(node, t, h, 0, i))
  {
    ObtainedIsOwed(node, t, h, 0, 0, 0, i);
  }

  lemma RequestIsOwed<E>(node: NodeHash<E>, t: MerkleTree<E>, h: nat, kept: nat, rows: Option<nat>, i: nat)
    requires CacheReady(node, t, h, kept, rows) && i < t.leafs
    ensures h >= 1 && Answering(t, h) && BUILD_CHUNK_NODES % t.base == 0
    ensures Obtained(node, t, h, Taken(t.base, h, rows), i)
         == Some(OwedProof(node, t, h, CacheStart(t.base, h, kept), i))
  {
    hide Pow, Geo, CacheStart, TreeOk, Obtained, Taken;
    ObtainedIsOwed(node, t, h, CacheStart(t.base, h, kept), kept, Taken(t.base, h, rows), i);
  }

  /** The stores of a well-formed tree answer for their leaves. */
  lemma {:induction false} TreeAnswers<E>(node: NodeHash<E>, t: MerkleTree<E>, h: nat, lo: nat)
    requires TreeOk(node, t, h, lo)
    ensures Answering(t, h)
    decreases t
  {
    hide Pow, Row, Flat, Geo, TreeHash, BaseLeaves, Holds, LeavesAnswer;
    if t.data.BaseTree? {
      HoldsLeaves(node, t.base, BaseLeaves(t), h, t.data.store, lo);
    } else {
      forall k: nat | k < |t.data.trees|
        ensures Answering(t.data.trees[k], h)
      {
        TreeAnswers(node, t.data.trees[k], h, lo);
      }
    }
  }

  // ---------- cached and full trees ----------

  /** Trees of one shape over the same leaves, whatever their stores still answer for. */
  ghost predicate SameLeaves<E>(t: MerkleTree<E>, u: MerkleTree<E>)
    decreases t
  {
    && t.base == u.base && t.sub == u.sub && t.top == u.top
    && t.data.BaseTree? == u.data.BaseTree? && t.data.SubTree? == u.data.SubTree?
    && if t.data.BaseTree? then BaseLeaves(t) == BaseLeaves(u)
       else
         && |t.data.trees| == |u.data.trees|
         && forall k: nat | k < |t.data.trees| :: SameLeaves(t.data.trees[k], u.data.trees[k])
  }

  lemma {:induction false} SameRoot<E>(node: NodeHash<E>, t: MerkleTree<E>, u: MerkleTree<E>, h: nat, lo: nat, hi: nat)
    requires TreeOk(node, t, h, lo) && TreeOk(node, u, h, hi) && SameLeaves(t, u)
    ensures t.root == u.root && t.leafs == u.leafs
    ensures !t.data.BaseTree? ==> Roots(t.data.trees) == Roots(u.data.trees) && ChildLeafs(t) == ChildLeafs(u)
    decreases t
  {
    hide Pow, Row, Flat, Geo, TreeHash, BaseLeaves, Holds;
    if t.data.BaseTree? {
      assert |BaseLeaves(t)| == t.leafs && |BaseLeaves(u)| == u.leafs;
    } else {
      forall k: nat | k < |t.data.trees|
        ensures t.data.trees[k].root == u.data.trees[k].root && t.data.trees[k].leafs == u.data.trees[k].leafs
      {
        SameRoot(node, t.data.trees[k], u.data.trees[k], h, lo, hi);
      }
      assert Roots(t.data.trees) == Roots(u.data.trees);
    }
  }

  lemma SameChild<E>(node: NodeHash<E>, t: MerkleTree<E>, u: MerkleTree<E>, h: nat, lo: nat, hi: nat, i: nat)
    requires TreeOk(node, t, h, lo) && TreeOk(node, u, h, hi) && SameLeaves(t, u) && !t.data.BaseTree? && i < t.leafs
    ensures i < u.leafs && Locate(u, i) == Locate(t, i)
  {
    hide BaseOk, BaseLeaves, Roots;
    SameRoot(node, t, u, h, lo, hi);
    ChildOfLeaf(node, t, i);
    ChildOfLeaf(node, u, i);
  }

  /** The proof owed does not depend on what the stores have lost: with `GenProof` and
      `GenCachedProof`, cached proofs of a compound tree are those of the full tree. */
  lemma {:induction false} CachedIsFull<E>(node: NodeHash<E>, t: MerkleTree<E>, u: MerkleTree<E>, h: nat, lo: nat,
                                           hi: nat, i: nat)
    requires TreeOk(node, t, h, lo) && TreeOk(node, u, h, hi) && SameLeaves(t, u) && i < t.leafs
    ensures i < u.leafs && OwedProof(node, t, h, lo, i) == OwedProof(node, u, h, hi, i)
    decreases t
  {
    hide Pow, Row, Flat, Geo, TreeHash, BaseLeaves, Holds, Locate, BaseProof, Roots;
    SameRoot(node, t, u, h, lo, hi);
    if !t.data.BaseTree? {
      ChildFound(node, t, h, lo, i);
      ChildFound(node, u, h, hi, i);
      SameChild(node, t, u, h, lo, hi, i);
      var (k, leaf) := Locate(t, i).value;
      CachedIsFull(node, t.data.trees[k], u.data.trees[k], h, lo, hi, leaf);
    }
  }

  // ---------- completeness ----------

  ghost function RootOf<E>(p: Proof<E>): E
    requires p.hashes != []
  {
    p.hashes[|p.hashes| - 1]
  }

  /** The base proof at the bottom of a nested proof. */
  ghost function Innermost<E>(p: Proof<E>): Proof<E> {
    if p.sub.None? then p else Innermost(p.sub.value)
  }

  /** The arity that validation reads off a layer: the top arity of its type, if there is one. */
  ghost function CheckedArity<E>(t: MerkleTree<E>): nat {
    if t.top > 0 then t.top else t.sub
  }

  /** The node list that validation puts together for a layer over n roots: with a smaller arity it stops
      early, with one more than n it takes in the root of the layer itself. */
  ghost function CheckedList<E>(t: MerkleTree<E>): seq<E>
    requires !t.data.BaseTree?
  {
    var roots, arity := Roots(t.data.trees), CheckedArity(t);
    if arity <= |roots| then roots[..arity] else roots + [t.root]
  }

  /** What validation makes of a layer around child k, given what it makes of the proof inside. */
  ghost function LayerVerdict<E>(node: NodeHash<E>, t: MerkleTree<E>, k: nat, inner: Result<bool>): Result<bool>
    requires !t.data.BaseTree?
  {
    var arity, n := CheckedArity(t), |t.data.trees|;
    if inner != Ok(true) then inner
    else if (k < arity && t.sub == 0) || arity > n + 1 then Err(Panicked)
    else if k >= arity then Ok(false)
    else Ok(node(CheckedList(t), 0) == t.root)
  }

  /** A layer around a proof of one of its children, for every hash and every type: it takes over any other
      verdict than acceptance; a top layer directly over base trees has no sub-tree arity, and asking such
      a proof for its sub-tree root panics; otherwise the list that the arity selects has to hash to the
      root. */
  lemma LayerValidates<E>(node: NodeHash<E>, t: MerkleTree<E>, k: nat, inner: Proof<E>)
    requires t.base >= 2 && !t.data.BaseTree? && Arity(t) == |t.data.trees| && k < |t.data.trees|
    requires inner.hashes != [] && RootOf(inner) == t.data.trees[k].root
    ensures Validate(node, t.base, LayerProof(t, k, inner)) == LayerVerdict(node, t, k, Validate(node, t.base, inner))
  {
    hide Assemble, Without, Climb, CheckedList, Roots, LayerProof;
    AssembleLayer(t, k);
    LayerFields(t, k, inner);
  }

  lemma LayerFields<E>(t: MerkleTree<E>, k: nat, inner: Proof<E>)
    requires !t.data.BaseTree?
    ensures var p := LayerProof(t, k, inner);
            && p.sub == Some(inner) && p.path == [k] && p.topLayerNodes == t.top && p.subTreeLayerNodes == t.sub
            && p.hashes == Without(Roots(t.data.trees), k, 0, |t.data.trees|) + [t.root] && RootOf(p) == t.root
  {
    hide Without, Roots;
  }

  lemma AssembleLayer<E>(t: MerkleTree<E>, k: nat)
    requires !t.data.BaseTree? && k < |t.data.trees| == Arity(t)
    ensures var arity, n := CheckedArity(t), |t.data.trees|;
            var rest := Without(Roots(t.data.trees), k, 0, n) + [t.root];
            arity > 0 && Assemble(rest, arity, k, t.data.trees[k].root) ==
              if arity > n + 1 then Err(Panicked) else if k >= arity then Ok(None) else Ok(Some(CheckedList(t)))
  {
    var roots, arity, n := Roots(t.data.trees), CheckedArity(t), |t.data.trees|;
    var rest := Without(roots, k, 0, n) + [t.root];
    assert |rest| == n && roots[k] == t.data.trees[k].root;
    if k < arity <= n + 1 { Inserted(roots, t.root, k, arity); }
  }

  /** A root put back among the others, and as many of the list taken as asked for. */
  lemma Inserted<E>(roots: seq<E>, root: E, k: nat, arity: nat)
    requires k < |roots| && k < arity <= |roots| + 1
    ensures var rest := Without(roots, k, 0, |roots|) + [root];
            rest[..k] + [roots[k]] + rest[k..arity - 1] == if arity <= |roots| then roots[..arity] else roots + [root]
  {
    var rest := Without(roots, k, 0, |roots|) + [root];
    assert rest == roots[..k] + (roots[k + 1..] + [root]);
    assert rest[..k] == roots[..k] && rest[k..arity - 1] == (roots[k + 1..] + [root])[..arity - 1 - k];
    assert rest[..k] + [roots[k]] + rest[k..arity - 1] == (roots + [root])[..arity];
  }

  /** What validation makes of the proof owed for leaf i: the verdict on the base proof, then on the layers. */
  ghost function Verdict<E>(node: NodeHash<E>, t: MerkleTree<E>, h: nat, lo: nat, i: nat): Result<bool>
    requires TreeOk(node, t, h, lo) && i < t.leafs
    decreases t
  {
    if t.data.BaseTree? then Validate(node, t.base, OwedProof(node, t, h, lo, i))
    else
      ChildFound(node, t, h, lo, i);
      var (k, leaf) := Locate(t, i).value;
      LayerVerdict(node, t, k, Verdict(node, t.data.trees[k], h, lo, leaf))
  }

  /** Where a proof owed leads: to the root, and down to the leaf that `read_at` returns. */
  ghost predicate Leads<E>(t: MerkleTree<E>, i: nat, p: Proof<E>) {
    && p.hashes != [] && RootOf(p) == t.root
    && Innermost(p).hashes != [] && ReadAt(t, i) == Ok(Innermost(p).hashes[0])
  }

  /** Main theorem, for every hash: every proof owed by a well-formed tree of one, two or three layers leads
      from the leaf to the root, and this is what validation makes of it. */
  lemma {:induction false} OwedProofVerdict<E>(node: NodeHash<E>, t: MerkleTree<E>, h: nat, lo: nat, i: nat)
    requires TreeOk(node, t, h, lo) && i < t.leafs
    ensures t.base >= 2 && Leads(t, i, OwedProof(node, t, h, lo, i))
    ensures Validate(node, t.base, OwedProof(node, t, h, lo, i)) == Verdict(node, t, h, lo, i)
    decreases t
  {
    hide Pow, Row, Flat, Geo, TreeHash, Validate, BaseOk, BaseProof, Locate, Leads, LayerOk, LayerProof, LayerVerdict;
    if t.data.BaseTree? {
      BaseTreeLeads(node, t, h, lo, i);
    } else {
      ChildFound(node, t, h, lo, i);
      LayerShape(node, t, h, lo);
      var (k, leaf) := Locate(t, i).value;
      OwedProofVerdict(node, t.data.trees[k], h, lo, leaf);
      LayerLeads(t, i, OwedProof(node, t.data.trees[k], h, lo, leaf));
      LayerValidates(node, t, k, OwedProof(node, t.data.trees[k], h, lo, leaf));
    }
  }

  lemma LayerShape<E>(node: NodeHash<E>, t: MerkleTree<E>, h: nat, lo: nat)
    requires TreeOk(node, t, h, lo) && !t.data.BaseTree?
    ensures Arity(t) == |t.data.trees| && (t.top > 0 || t.sub > 0) && t.root == node(Roots(t.data.trees), 1)
  {}

  lemma LayerLeads<E>(t: MerkleTree<E>, i: nat, inner: Proof<E>)
    requires !t.data.BaseTree? && Arity(t) == |t.data.trees| && Locate(t, i).Ok?
    requires var (k, leaf) := Locate(t, i).value; Leads(t.data.trees[k], leaf, inner)
    ensures var (k, leaf) := Locate(t, i).value;
            && Leads(t, i, LayerProof(t, k, inner))
            && inner.hashes != [] && RootOf(inner) == t.data.trees[k].root
  {
    hide Without, Roots;
  }

  lemma BaseTreeLeads<E>(node: NodeHash<E>, t: MerkleTree<E>, h: nat, lo: nat, i: nat)
    requires TreeOk(node, t, h, lo) && t.data.BaseTree? && i < t.leafs
    ensures t.base >= 2 && Leads(t, i, OwedProof(node, t, h, lo, i))
  {
    hide Pow, Row, Flat, Geo, TreeHash, SiblingsUpTo, PathUpTo, Holds, BaseLeaves;
    ReadsBase(node, t, h, lo, i);
  }

  /** The arities of the type are those of the layers, as validation takes them: no top layer directly over
      base trees, and no other top arity in the type of a two-layer tree than its sub-tree arity. */
  ghost predicate Matched<E>(t: MerkleTree<E>) {
    t.data.BaseTree? || (t.sub > 0 && CheckedArity(t) == Arity(t))
  }

  /** The children of a matched layer, and those of a top layer over two-layer trees, are matched. */
  lemma ChildMatched<E>(node: NodeHash<E>, t: MerkleTree<E>, h: nat, lo: nat, k: nat)
    requires TreeOk(node, t, h, lo) && !t.data.BaseTree? && k < |t.data.trees|
    ensures Matched(t.data.trees[k])
  {
    hide BaseOk, Roots;
    assert FitsUnder(t, t.data.trees[k]) && TreeOk(node, t.data.trees[k], h, lo);
  }

  /** For hashes that ignore the height: every proof owed by a matched tree validates. */
  lemma {:induction false} OwedProofValidates<E(!new)>(node: NodeHash<E>, t: MerkleTree<E>, h: nat, lo: nat, i: nat)
    requires HeightFree(node) && TreeOk(node, t, h, lo) && i < t.leafs && Matched(t)
    ensures t.base >= 2 && Leads(t, i, OwedProof(node, t, h, lo, i))
    ensures Validate(node, t.base, OwedProof(node, t, h, lo, i)) == Ok(true)
    decreases t
  {
    hide Pow, Row, Flat, Geo, TreeHash, Validate, Locate, BaseLeaves, Holds, BaseProof, Leads;
    OwedProofVerdict(node, t, h, lo, i);
    if t.data.BaseTree? {
      BaseProofValidates(node, t.base, BaseLeaves(t), h, i);
    } else {
      ChildFound(node, t, h, lo, i);
      var (k, leaf) := Locate(t, i).value;
      ChildMatched(node, t, h, lo, k);
      OwedProofVerdict(node, t.data.trees[k], h, lo, leaf);
      OwedProofValidates(node, t.data.trees[k], h, lo, leaf);
      assert CheckedList(t) == Roots(t.data.trees);
    }
  }

  /** The others are exactly those whose proofs are never accepted, unless two different node lists collide:
      `MerkleTree<_, _, _, U2, U4, U2>` from `from_trees`, or a top layer over base trees. */
  lemma UnmatchedIsRejected<E(!new)>(node: NodeHash<E>, t: MerkleTree<E>, h: nat, lo: nat, i: nat)
    requires HeightFree(node) && TreeOk(node, t, h, lo) && i < t.leafs && !Matched(t)
    ensures t.base >= 2 && !t.data.BaseTree?
    ensures Validate(node, t.base, OwedProof(node, t, h, lo, i)) == Ok(true) ==>
              Clash(node, CheckedList(t), Roots(t.data.trees))
  {
    hide Pow, BaseOk, Validate, Locate, Leads;
    OwedProofVerdict(node, t, h, lo, i);
    ChildFound(node, t, h, lo, i);
    assert t.sub > 0 ==> |CheckedList(t)| != |Roots(t.data.trees)|;
  }

  /** A top layer over base trees, as `from_sub_trees` makes it for a type without a sub-tree arity: a proof
      is generated for every leaf, and validating it panics. */
  lemma TopOverBasePanics<E(!new)>(node: NodeHash<E>, t: MerkleTree<E>, h: nat, lo: nat, i: nat)
    requires HeightFree(node) && TreeOk(node, t, h, lo) && t.data.TopTree? && t.sub == 0 && i < t.leafs
    ensures t.base >= 2 && Validate(node, t.base, OwedProof(node, t, h, lo, i)) == Err(Panicked)
  {
    hide Pow, BaseOk, Validate, Locate, Leads;
    OwedProofVerdict(node, t, h, lo, i);
    ChildFound(node, t, h, lo, i);
    var (k, leaf) := Locate(t, i).value;
    ChildMatched(node, t, h, lo, k);
    OwedProofVerdict(node, t.data.trees[k], h, lo, leaf);
    OwedProofValidates(node, t.data.trees[k], h, lo, leaf);
  }

  /** A hash that shows its height: no proof of a compound tree validates, whatever the arities. */
  lemma HeightAwareLayers(t: MerkleTree<nat>, h: nat, lo: nat, i: nat)
    requires TreeOk(LevelHash(), t, h, lo) && !t.data.BaseTree? && i < t.leafs
    ensures t.base >= 2 && Validate(LevelHash(), t.base, OwedProof(LevelHash(), t, h, lo, i)) != Ok(true)
  {
    hide Pow, BaseOk, Validate, Locate, Leads, Roots;
    OwedProofVerdict(LevelHash(), t, h, lo, i);
    ChildFound(LevelHash(), t, h, lo, i);
    assert LevelHash()(CheckedList(t), 0) == 0 && t.root == LevelHash()(Roots(t.data.trees), 1) == 1;
  }

  // ---------- soundness ----------

  /** A base proof with as many validation steps as the tree has levels. */
  ghost predicate BaseShape<E>(p: Proof<E>, b: nat, h: nat)
    requires b >= 2
  {
    p.topLayerNodes == 0 && p.subTreeLayerNodes == 0 && Steps(|p.hashes|, 1, b) == h
  }

  /** The shape of a proof from the tree t: the arities of its type, layer by layer. */
  ghost predicate ProofShape<E>(t: MerkleTree<E>, h: nat, p: Proof<E>)
    requires t.base >= 2
    decreases t
  {
    if t.data.BaseTree? then BaseShape(p, t.base, h)
    else
      && p.topLayerNodes == t.top && p.subTreeLayerNodes == t.sub && p.sub.Some?
      && forall k: nat | k < |t.data.trees| ::
           t.data.trees[k].base >= 2 && ProofShape(t.data.trees[k], h, p.sub.value)
  }

  /** The node list a layer of a proof is checked with. */
  ghost function LayerList<E>(p: Proof<E>): Option<seq<E>> {
    var arity := if p.topLayerNodes > 0 then p.topLayerNodes else p.subTreeLayerNodes;
    if arity == 0 || p.path == [] || p.sub.None? || p.sub.value.hashes == [] then None
    else match Assemble(p.hashes, arity, p.path[0], RootOf(p.sub.value))
      case Ok(Some(nodes)) => Some(nodes)
      case _ => None
  }

  /** `ns` is one of the node lists hashed while the proof is validated. */
  ghost predicate ListedByProof<E>(node: NodeHash<E>, b: nat, p: Proof<E>, ns: seq<E>)
    requires b >= 2
    decreases p
  {
    if p.sub.None? then p.hashes != [] && Assembled(node, b, p.hashes, p.path, p.hashes[0], 1, 0, ns)
    else LayerList(p) == Some(ns) || ListedByProof(node, b, p.sub.value, ns)
  }

  /** `ms` is one of the node lists hashed when the tree was built. */
  ghost predicate ListedByTree<E>(node: NodeHash<E>, t: MerkleTree<E>, h: nat, ms: seq<E>)
    decreases t
  {
    if t.data.BaseTree? then Perfect(t.base, BaseLeaves(t), h) && Built(node, t.base, BaseLeaves(t), h, ms)
    else
      var trees := t.data.trees;
      ms == Roots(trees) || exists k: nat :: k < |trees| && ListedByTree(node, trees[k], h, ms)
  }

  /** Two different node lists with one hash, one from each side. */
  ghost predicate ClashShown<E(!new)>(node: NodeHash<E>, t: MerkleTree<E>, h: nat, p: Proof<E>)
    requires t.base >= 2
  {
    exists ns: seq<E>, ms: seq<E> ::
      ListedByProof(node, t.base, p, ns) && ListedByTree(node, t, h, ms) && Clash(node, ns, ms)
  }

  /** An accepted layer, whatever arity it is checked with: its inner proof is accepted, and leads to the root
      of the child the path names, or the list of the layer clashes with the list of the roots. */
  lemma LayerSound<E(!new)>(node: NodeHash<E>, t: MerkleTree<E>, p: Proof<E>)
    requires t.base >= 2 && !t.data.BaseTree? && HeightFree(node) && t.root == node(Roots(t.data.trees), 1)
    requires p.topLayerNodes > 0 || p.subTreeLayerNodes > 0
    requires Validate(node, t.base, p) == Ok(true) && p.hashes != [] && RootOf(p) == t.root
    ensures p.sub.Some? && Validate(node, t.base, p.sub.value) == Ok(true)
    ensures p.path != [] && p.sub.value.hashes != [] && LayerList(p).Some?
    ensures || (p.path[0] < |t.data.trees| && RootOf(p.sub.value) == t.data.trees[p.path[0]].root)
            || Clash(node, LayerList(p).value, Roots(t.data.trees))
  {
    var ns, trees := LayerList(p).value, t.data.trees;
    assert p.path[0] < |ns| && ns[p.path[0]] == RootOf(p.sub.value);
    if ns == Roots(trees) {
      assert Roots(trees)[p.path[0]] == trees[p.path[0]].root;
    }
  }

  lemma BaseSound<E(!new)>(node: NodeHash<E>, t: MerkleTree<E>, h: nat, lo: nat, p: Proof<E>)
    requires HeightFree(node) && TreeOk(node, t, h, lo) && t.data.BaseTree? && t.base >= 2 && ProofShape(t, h, p)
    requires Validate(node, t.base, p) == Ok(true) && p.hashes != [] && RootOf(p) == t.root
    ensures ClashShown(node, t, h, p) || ProvesLeaf(t, h, p)
  {
    hide Pow, Flat, Geo, Climb, Assembled, Decode, BaseLeaves, Holds, TreeHash, Built;
    var leaves := BaseLeaves(t);
    ClimbSound(node, t.base, leaves, h, p.hashes, p.path, p.hashes[0], 1, 0);
    RowZero(node, t.base, leaves);
    if Collision(node, t.base, leaves, h, p.hashes, p.path, p.hashes[0], 1, 0) {
      var ns: seq<E>, ms: seq<E> :| Assembled(node, t.base, p.hashes, p.path, p.hashes[0], 1, 0, ns)
                                    && Built(node, t.base, leaves, h, ms) && Clash(node, ns, ms);
      assert ListedByProof(node, t.base, p, ns) && ListedByTree(node, t, h, ms);
    }
  }

  /** A clash below a layer is a clash of the layer. */
  lemma ClashBelow<E(!new)>(node: NodeHash<E>, t: MerkleTree<E>, k: nat, h: nat, p: Proof<E>)
    requires t.base >= 2 && !t.data.BaseTree? && k < |t.data.trees| && t.data.trees[k].base == t.base
    requires p.sub.Some? && ClashShown(node, t.data.trees[k], h, p.sub.value)
    ensures ClashShown(node, t, h, p)
  {
    var trees := t.data.trees;
    var ns: seq<E>, ms: seq<E> :| ListedByProof(node, t.base, p.sub.value, ns)
                                  && ListedByTree(node, trees[k], h, ms) && Clash(node, ns, ms);
    assert ListedByProof(node, t.base, p, ns) && ListedByTree(node, t, h, ms);
  }

  lemma ClashHere<E(!new)>(node: NodeHash<E>, t: MerkleTree<E>, h: nat, p: Proof<E>)
    requires t.base >= 2 && !t.data.BaseTree?
    requires p.sub.Some? && LayerList(p).Some? && Clash(node, LayerList(p).value, Roots(t.data.trees))
    ensures ClashShown(node, t, h, p)
  {
    assert ListedByProof(node, t.base, p, LayerList(p).value) && ListedByTree(node, t, h, Roots(t.data.trees));
  }

  /** The leaf index that the stacked paths of a proof name. */
  ghost function PathIndex<E>(t: MerkleTree<E>, h: nat, p: Proof<E>): Option<nat>
    decreases t
  {
    if t.data.BaseTree? then
      if h <= |p.path| then Some(Decode(t.base, p.path, 0, h)) else None
    else if p.sub.None? || p.path == [] || p.path[0] >= |t.data.trees| then None
    else
      match PathIndex(t.data.trees[p.path[0]], h, p.sub.value)
      case Some(leaf) => Some(p.path[0] * ChildLeafs(t) + leaf)
      case None => None
  }

  /** Leaf r of child k is leaf k * w + r of the layer. */
  lemma LeafOfChild<E>(parts: seq<seq<E>>, w: nat, k: nat, r: nat)
    requires w >= 1 && k < |parts| && r < w && forall j: nat | j < |parts| :: |parts[j]| == w
    ensures k * w + r < |Flatten(parts)| == |parts| * w && Flatten(parts)[k * w + r] == parts[k][r]
  {
    hide Flatten;
    DivUnique(k * w + r, w, k, r);
    MulMono(k + 1, |parts|, w);
    FlattenAt(parts, w, k * w + r);
  }

  /** The innermost item of a proof is the leaf that its stacked paths name. */
  ghost predicate ProvesLeaf<E>(t: MerkleTree<E>, h: nat, p: Proof<E>) {
    match PathIndex(t, h, p)
    case Some(i) =>
      && i < |AllLeaves(t)| == t.leafs
      && Innermost(p).hashes != [] && Innermost(p).hashes[0] == AllLeaves(t)[i]
    case None => false
  }

  lemma LayerProvesLeaf<E>(node: NodeHash<E>, t: MerkleTree<E>, h: nat, lo: nat, p: Proof<E>)
    requires TreeOk(node, t, h, lo) && !t.data.BaseTree? && p.sub.Some? && p.path != [] && p.path[0] < |t.data.trees|
    requires ProvesLeaf(t.data.trees[p.path[0]], h, p.sub.value)
    ensures ProvesLeaf(t, h, p)
  {
    hide BaseOk, AllLeaves, Parts, Flatten, Roots;
    var k := p.path[0];
    PartsFit(node, t, h, lo);
    LeavesOfLayer(t, k);
    LeafOfChild(Parts(t), ChildLeafs(t), k, PathIndex(t.data.trees[k], h, p.sub.value).value);
  }

  /** Main theorem: a proof of the tree's shape that is accepted against the tree's root proves a leaf of
      the tree, at the index its stacked paths name, or shows two node lists that collide. */
  lemma {:induction false} AcceptedProofIsSound<E(!new)>(node: NodeHash<E>, t: MerkleTree<E>, h: nat, lo: nat,
                                                         p: Proof<E>)
    requires HeightFree(node) && TreeOk(node, t, h, lo) && t.base >= 2 && ProofShape(t, h, p)
    requires Validate(node, t.base, p) == Ok(true) && p.hashes != [] && RootOf(p) == t.root
    ensures ClashShown(node, t, h, p) || ProvesLeaf(t, h, p)
    decreases t
  {
    hide Pow, Flat, Geo, TreeHash, Holds, BaseLeaves, Validate, LayerList, ClashShown, RootOf, Roots, ProvesLeaf,
         Clash;
    if t.data.BaseTree? {
      BaseSound(node, t, h, lo, p);
    } else {
      LayerShape(node, t, h, lo);
      LayerSound(node, t, p);
      var k, inner := p.path[0], p.sub.value;
      if k < |t.data.trees| && RootOf(inner) == t.data.trees[k].root {
        assert FitsUnder(t, t.data.trees[k]) && TreeOk(node, t.data.trees[k], h, lo);
        AcceptedProofIsSound(node, t.data.trees[k], h, lo, inner);
        if ClashShown(node, t.data.trees[k], h, inner) {
          ClashBelow(node, t, k, h, p);
        } else {
          LayerProvesLeaf(node, t, h, lo, p);
        }
      } else {
        ClashHere(node, t, h, p);
      }
    }
  }

  /** The leaf that a proof proves is the one that `read_at` returns. */
  lemma ProvenLeafIsRead<E>(node: NodeHash<E>, t: MerkleTree<E>, h: nat, lo: nat, p: Proof<E>)
    requires TreeOk(node, t, h, lo) && ProvesLeaf(t, h, p)
    ensures ReadAt(t, PathIndex(t, h, p).value) == Ok(Innermost(p).hashes[0])
  {
    hide BaseOk, AllLeaves, ReadAt;
    ReadsInOrder(node, t, h, lo, PathIndex(t, h, p).value);
  }
}
