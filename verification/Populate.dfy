/** Filling a store with leaf hashes, in order or block by block in any order, and the trees made
    on top of it (src/merkle.rs). */
module Populate {
  import opened Outcome
  import opened Powers
  import opened Shape
  import opened Rows
  import opened Chunks
  import opened VecStores
  import opened Generation
  import opened Merkle
  import opened Hashing
  import opened Rfc6962

  /** The leaf hash of every item, in order. */
  function Leaves<E>(leaf: E -> E, items: seq<E>): (leaves: seq<E>)
    ensures |leaves| == |items|
  {
    seq(|items|, k requires 0 <= k < |items| => leaf(items[k]))
  }

  /** The items an iterator yields before its first error. */
  function Yielded<E>(iter: seq<Result<E>>): seq<E> {
    if iter == [] || iter[0].Err? then [] else [iter[0].value] + Yielded(iter[1..])
  }

  predicate AllOk<E>(iter: seq<Result<E>>) {
    forall k: nat | k < |iter| :: iter[k].Ok?
  }

  lemma {:induction false} YieldedAt<E>(iter: seq<Result<E>>, k: nat)
    requires k < |iter| && forall i: nat | i < k :: iter[i].Ok?
    ensures iter[k].Ok? ==> k < |Yielded(iter)| && Yielded(iter)[k] == iter[k].value
    ensures iter[k].Err? ==> |Yielded(iter)| == k
  {
    if k > 0 { YieldedAt(iter[1..], k - 1); }
  }

  lemma {:induction false} YieldedAll<E>(iter: seq<Result<E>>)
    ensures |Yielded(iter)| <= |iter|
    ensures |Yielded(iter)| == |iter| <==> AllOk(iter)
  {
    if iter != [] {
      YieldedAll(iter[1..]);
      assert iter[0].Ok? && AllOk(iter[1..]) ==> AllOk(iter) by {
        if iter[0].Ok? && AllOk(iter[1..]) {
          assert forall k: nat | 0 < k < |iter| :: iter[k] == iter[1..][k - 1];
        }
      }
    }
  }

  /** `len` items in whole blocks. */
  ghost predicate WholeBlocks(n: nat, len: nat) {
    n % 262144 == 0 && n <= len < n + 262144
  }

  lemma OneMoreLeaf<E>(leaf: E -> E, items: seq<E>, k: nat)
    requires k < |items|
    ensures Leaves(leaf, items[..k + 1]) == Leaves(leaf, items[..k]) + [leaf(items[k])]
  {}

  lemma SpliceAtEnd<E>(store: seq<E>, buf: seq<E>, fill: E)
    ensures Splice(store, buf, |store|, fill) == store + buf
  {}

  /** `populate_data`: hash the items in order, writing a block at a time. An error of the iterator
      ends it with the whole blocks before the error written and the rest lost. */
  method PopulateData<E>(store: VecStore<E>, leaf: E -> E, iter: seq<Result<E>>) returns (ok: bool)
    modifies store
    ensures old(store.items) != [] ==> ok && store.items == old(store.items)
    ensures old(store.items) == [] ==> (ok <==> AllOk(iter))
    ensures old(store.items) == [] && ok ==> store.items == Leaves(leaf, Yielded(iter))
    ensures old(store.items) == [] && !ok ==>
              && |store.items| <= |Yielded(iter)| && WholeBlocks(|store.items|, |Yielded(iter)|)
              && store.items == Leaves(leaf, Yielded(iter)[..|store.items|])
  {
    hide Leaves, Splice, Yielded;
    if store.items != [] {
      return true;
    }
    ghost var items := Yielded(iter);
    var buf: seq<E> := [];
    YieldedAll(iter);
    NoLeaves(leaf, items);
    for k := 0 to |iter|
      invariant k <= |items| && forall i: nat | i < k :: iter[i].Ok?
      invariant |store.items| + |buf| == k && |buf| < BUILD_DATA_BLOCK_SIZE
      invariant |store.items| % BUILD_DATA_BLOCK_SIZE == 0
      invariant store.items == Leaves(leaf, items[..|store.items|])
      invariant store.items + buf == Leaves(leaf, items[..k])
    {
      YieldedAt(iter, k);
      if iter[k].Err? {
        return false;
      }
      OneMoreLeaf(leaf, items, k);
      ghost var before := buf;
      buf := buf + [leaf(iter[k].value)];
      assert store.items + buf == (store.items + before) + [leaf(items[k])];
      if |buf| >= BUILD_DATA_BLOCK_SIZE {
        SpliceAtEnd(store.items, buf, store.fill);
        store.CopyFromSlice(buf, |store.items|);
        buf := [];
        assert store.items + buf == store.items;
      }
    }
    SpliceAtEnd(store.items, buf, store.fill);
    store.CopyFromSlice(buf, |store.items|);
    assert items[..|iter|] == items;
    return true;
  }

  lemma NoLeaves<E>(leaf: E -> E, items: seq<E>)
    ensures Leaves(leaf, items[..0]) == []
  {}

  function Below(n: nat): (r: set<nat>)
    ensures forall k: nat :: k in r <==> k < n
  {
    if n == 0 then {} else Below(n - 1) + {n - 1}
  }

  /** `populate_data_par`: the blocks arrive in any order, each written at its own place. */
  method PopulateDataPar<E>(store: VecStore<E>, leaf: E -> E, items: seq<E>)
    modifies store
    ensures store.items == if old(store.items) != [] then old(store.items) else Leaves(leaf, items)
  {
    hide Leaves, Splice, Chunk, CellsOf, Written, ChunkCount;
    if store.items != [] {
      return;
    }
    ghost var target := Leaves(leaf, items);
    var blocks := ChunkCount(|items|, BUILD_DATA_BLOCK_SIZE);
    var todo, done: set<nat> := Below(blocks), {};
    NothingWritten(target, CellsOf(|target|, BUILD_DATA_BLOCK_SIZE, done));
    NoCells(|target|, BUILD_DATA_BLOCK_SIZE);
    while todo != {}
      invariant forall k: nat :: k < blocks <==> k in todo || k in done
      invariant forall k: nat | k in done :: k !in todo
      invariant Written(store.items, [], target, 0, CellsOf(|target|, BUILD_DATA_BLOCK_SIZE, done))
      decreases |todo|
    {
      var k :| k in todo;
      BlockOfLeaves(leaf, items, k);
      var block := Leaves(leaf, Chunk(items, BUILD_DATA_BLOCK_SIZE, k));
      WritePiece(store.items, [], target, 0, BUILD_DATA_BLOCK_SIZE, done, k, store.fill);
      store.CopyFromSlice(block, BUILD_DATA_BLOCK_SIZE * k);
      todo, done := todo - {k}, done + {k};
    }
    AllWritten(store.items, [], target, 0, BUILD_DATA_BLOCK_SIZE, done, store.fill);
    SpliceAtEnd([], target, store.fill);
    assert [] + target == target;
  }

  lemma NoCells(n: nat, piece: nat)
    requires piece > 0
    ensures CellsOf(n, piece, {}) == {}
  {}

  lemma NothingWritten<E>(target: seq<E>, cells: set<nat>)
    ensures cells == {} ==> Written([], [], target, 0, cells)
  {}

  lemma BlockOfLeaves<E>(leaf: E -> E, items: seq<E>, k: nat)
    requires k < ChunkCount(|items|, BUILD_DATA_BLOCK_SIZE)
    ensures Leaves(leaf, Chunk(items, BUILD_DATA_BLOCK_SIZE, k)) == Chunk(Leaves(leaf, items), BUILD_DATA_BLOCK_SIZE, k)
  {}

  /** The flat tree as the answers of a store that holds it all. */
  function Answers<E>(items: seq<E>): (store: seq<Option<E>>)
    ensures |store| == |items|
  {
    seq(|items|, k requires 0 <= k < |items| => Some(items[k]))
  }

  /** A tree of the given leaves, of the height its row count says. */
  ghost predicate TreeOver<E>(node: NodeHash<E>, t: MerkleTree<E>, b: nat, leaves: seq<E>) {
    t.rowCount >= 1 && BaseOk(node, t, t.rowCount - 1, 0) && t.base == b && BaseLeaves(t) == leaves
  }

  /** The checks and the build that the constructors share, after the store was filled. */
  method FinishTree<E>(store: VecStore<E>, node: NodeHash<E>, b: nat, leafs: nat, size: nat)
    returns (r: Result<MerkleTree<E>>)
    requires b >= 2 && IsPow2(b) && IsPow2(leafs) && leafs > 1 && size == DivSum(leafs, b)
    modifies store
    ensures r.Ok? <==> |old(store.items)| == leafs && Buildable(leafs, b)
    ensures r.Ok? ==> TreeOver(node, r.value, b, old(store.items))
  {
    hide Pow, Geo, Flat, Row, TreeHash, DivSum, RowCount, Levels, IsPow2;
    ghost var leaves := store.items;
    var rowCount := RowCount(leafs, b);
    RowCountMatchesLevels(leafs, b);
    Pow2Even(leafs);
    var root := store.Build(node, b, leafs, rowCount);
    if root.Err? {
      return Err(root.why);
    }
    ghost var h := rowCount - 1;
    var t := MerkleTree(BaseTree(Answers(store.items)), leafs, size, rowCount, root.value, b, 0, 0);
    FullTree(node, t, leaves, h);
    return Ok(t);
  }

  lemma FullTree<E>(node: NodeHash<E>, t: MerkleTree<E>, leaves: seq<E>, h: nat)
    requires t.base >= 2 && IsPow2(t.base) && t.sub == 0 && t.top == 0 && |leaves| == Pow(t.base, h) == t.leafs > 1
    requires t.data == BaseTree(Answers(Flat(node, t.base, leaves, h)))
    requires t.rowCount == h + 1 && t.len == DivSum(t.leafs, t.base) && t.root == TreeHash(node, t.base, h, leaves)
    ensures BaseOk(node, t, h, 0) && BaseLeaves(t) == leaves
  {
    hide Pow, Geo, Flat, Row, TreeHash, DivSum;
    DivSumPerfect(t.base, h);
    FlatLen(node, t.base, leaves, h, h);
    FlatPrefix(node, t.base, leaves, 0, h);
    FlatZero(node, t.base, leaves);
    PowSmall(t.base);
    assert BaseLeaves(t) == leaves;
  }

  /** `try_from_iter`: `hint` is the upper bound of the iterator's size hint. */
  method TryFromIter<E>(leaf: E -> E, node: NodeHash<E>, b: nat, hint: Option<nat>, iter: seq<Result<E>>, fill: E)
    returns (r: Result<MerkleTree<E>>)
    requires b != 1
    ensures r.Ok? <==> hint == Some(|iter|) && AllOk(iter) && Buildable(|iter|, b)
    ensures r.Ok? ==> TreeOver(node, r.value, b, Leaves(leaf, Yielded(iter)))
  {
    hide Pow, Leaves, Yielded, DivSum, TreeOver, IsPow2, IsPower, Buildable;
    if hint.None? {
      return Err(Rejected);
    }
    var leafs := hint.value;
    var size := TreeSize(leafs, b);
    if size.Err? {
      return Err(Rejected);
    }
    var store := new VecStore<E>.New(fill);
    var ok := PopulateData(store, leaf, iter);
    YieldedAll(iter);
    if !ok {
      return Err(Rejected);
    }
    r := FinishTree(store, node, b, leafs, size.value);
  }

  /** `from_par_iter`: the same tree, from blocks hashed in any order. */
  method FromParIter<E>(leaf: E -> E, node: NodeHash<E>, b: nat, items: seq<E>, fill: E)
    returns (r: Result<MerkleTree<E>>)
    requires b != 1
    ensures r.Ok? <==> Buildable(|items|, b)
    ensures r.Ok? ==> TreeOver(node, r.value, b, Leaves(leaf, items))
  {
    hide Pow, Leaves, Yielded, DivSum, TreeOver, IsPow2, IsPower, Buildable;
    var leafs := |items|;
    var size := TreeSize(leafs, b);
    if size.Err? {
      return Err(Rejected);
    }
    var store := new VecStore<E>.New(fill);
    PopulateDataPar(store, leaf, items);
    r := FinishTree(store, node, b, leafs, size.value);
  }

  /** On bytes: the leaves of a tree made from data items are their leaf hashes, and the root of a
      binary one is the tree head that section 2.1 of RFC 6962 gives the items. */
  lemma TreeOverItems(digest: Digest, t: MerkleTree<Bytes>, b: nat, items: seq<Bytes>)
    requires TreeOver(NodeOf(digest), t, b, Leaves(item => LeafHash(digest, item), items))
    ensures BaseLeaves(t) == LeafRow(digest, items)
    ensures b == 2 ==> t.root == TreeHeadHash(digest, items)
  {
    hide Pow, Flat, Holds, TreeHash, NodeOf, BaseLeaves, LeafHash, TreeHeadHash;
    assert Leaves(item => LeafHash(digest, item), items) == LeafRow(digest, items);
    if b == 2 { RootIsTreeHead(digest, items, t.rowCount - 1); }
  }
}
