/** Filling a file-backed store with leaf hashes, and the trees made on top of it (src/merkle.rs over
    src/store/disk.rs). Unlike the in-memory store, a file has only so much room. */
module PopulateDisk {
  import opened Outcome
  import opened Powers
  import opened Shape
  import opened Rows
  import opened Chunks
  import opened DiskStores
  import opened Merkle
  import opened Populate

  /** A file whose first elements have been overwritten. */
  ghost function Over<E>(front: seq<E>, file: seq<E>): seq<E> {
    if |front| <= |file| then front + file[|front|..] else front
  }

  lemma SpliceOver<E>(front: seq<E>, file: seq<E>, buf: seq<E>, fill: E)
    requires |front| + |buf| <= |file|
    ensures Splice(Over(front, file), buf, |front|, fill) == Over(front + buf, file)
  {}

  function Least(x: nat, y: nat): nat {
    if x <= y then x else y
  }

  /** `populate_data` into a file: it ends with an error also when the next block does not fit, and then
      with the whole blocks that do. */
  method PopulateFile<E>(store: DiskStore<E>, leaf: E -> E, iter: seq<Result<E>>) returns (ok: bool)
    requires store.Valid()
    modifies store
    ensures store.Valid()
    ensures old(store.len) > 0 ==> ok && store.file == old(store.file) && store.len == old(store.len)
    ensures old(store.len) == 0 ==> (ok <==> AllOk(iter) && |iter| <= |old(store.file)|)
    ensures old(store.len) == 0 ==>
              && store.len <= |Yielded(iter)| && store.len <= |old(store.file)|
              && store.file == Over(Leaves(leaf, Yielded(iter)[..store.len]), old(store.file))
              && (if ok then store.len == |iter| else WholeBlocks(store.len, Least(|Yielded(iter)|, |old(store.file)|)))
  {
    hide Leaves, Splice, Yielded, Over;
    if store.len > 0 {
      return true;
    }
    ghost var items, was := Yielded(iter), store.file;
    var buf: seq<E> := [];
    YieldedAll(iter);
    NothingOver(leaf, items, was);
    for k := 0 to |iter|
      invariant store.Valid() && store.storeSize == |was|
      invariant k <= |items| && forall i: nat | i < k :: iter[i].Ok?
      invariant store.len + |buf| == k && |buf| < BUILD_DATA_BLOCK_SIZE && store.len <= |was|
      invariant store.len % BUILD_DATA_BLOCK_SIZE == 0
      invariant store.file == Over(Leaves(leaf, items[..store.len]), was)
      invariant Leaves(leaf, items[..store.len]) + buf == Leaves(leaf, items[..k])
    {
      YieldedAt(iter, k);
      if iter[k].Err? {
        return false;
      }
      OneMoreLeaf(leaf, items, k);
      ghost var front, before := Leaves(leaf, items[..store.len]), buf;
      buf := buf + [leaf(iter[k].value)];
      assert front + buf == (front + before) + [leaf(items[k])];
      if |buf| >= BUILD_DATA_BLOCK_SIZE {
        if store.len + |buf| <= |was| { SpliceOver(front, was, buf, store.fill); }
        var copied := store.CopyFromSlice(buf, store.len);
        if !copied {
          return false;
        }
        buf := [];
        assert Leaves(leaf, items[..store.len]) + buf == Leaves(leaf, items[..store.len]);
      }
    }
    ghost var front := Leaves(leaf, items[..store.len]);
    if store.len + |buf| <= |was| { SpliceOver(front, was, buf, store.fill); }
    ok := store.CopyFromSlice(buf, store.len);
  }

  lemma NothingOver<E>(leaf: E -> E, items: seq<E>, file: seq<E>)
    ensures Leaves(leaf, items[..0]) == [] && Over(Leaves(leaf, items[..0]), file) == file
  {}

  /** Where block k ends. */
  function BlockEnd(n: nat, k: nat): nat {
    Least(262144 * (k + 1), n)
  }

  /** A file in which exactly the blocks `done` of the target have been written, and its length. */
  ghost predicate BlocksWritten<E>(done: set<nat>, file: seq<E>, len: nat, was: seq<E>, target: seq<E>) {
    && |file| == |was|
    && (forall i: nat | i < |file| ::
          file[i] == if i < |target| && i / 262144 in done then target[i] else was[i])
    && (forall k: nat | k in done :: BlockEnd(|target|, k) <= len <= |file|)
    && (len == 0 || exists k: nat :: k in done && len == BlockEnd(|target|, k))
  }

  lemma NoBlocks<E>(was: seq<E>, target: seq<E>)
    ensures BlocksWritten({}, was, 0, was, target)
  {}

  lemma OneMoreBlock<E>(done: set<nat>, file: seq<E>, len: nat, was: seq<E>, target: seq<E>, k: nat, fill: E)
    requires BlocksWritten(done, file, len, was, target) && k < ChunkCount(|target|, BUILD_DATA_BLOCK_SIZE)
    requires var at, block := BUILD_DATA_BLOCK_SIZE * k, Chunk(target, BUILD_DATA_BLOCK_SIZE, k);
             at + |block| == BlockEnd(|target|, k) <= |was|
    ensures var at, block := BUILD_DATA_BLOCK_SIZE * k, Chunk(target, BUILD_DATA_BLOCK_SIZE, k);
            var end := BlockEnd(|target|, k);
            BlocksWritten(done + {k}, Splice(file, block, at, fill), if len > end then len else end, was, target)
  {
    hide ChunkCount, BlockEnd;
    var at, block := BUILD_DATA_BLOCK_SIZE * k, Chunk(target, BUILD_DATA_BLOCK_SIZE, k);
    var next := Splice(file, block, at, fill);
    forall i: nat | i < |next|
      ensures next[i] == if i < |target| && i / BUILD_DATA_BLOCK_SIZE in done + {k} then target[i] else was[i]
    {
      BlockOf(|target|, k, i);
      SpliceAt(file, block, at, fill, i);
    }
    var end := BlockEnd(|target|, k);
    assert k in done + {k};
    if len > end && len != 0 {
      var j: nat :| j in done && len == BlockEnd(|target|, j);
      assert j in done + {k};
    }
  }

  lemma BlockOf(n: nat, k: nat, i: nat)
    requires k < ChunkCount(n, BUILD_DATA_BLOCK_SIZE)
    ensures i < n ==> (i / BUILD_DATA_BLOCK_SIZE == k <==> BUILD_DATA_BLOCK_SIZE * k <= i < BlockEnd(n, k))
    ensures i >= n ==> i >= BlockEnd(n, k)
  {}

  /** `populate_data_par` into a file: the blocks arrive in any order and the length follows the one that
      reaches furthest. */
  method PopulateFilePar<E>(store: DiskStore<E>, leaf: E -> E, items: seq<E>) returns (ok: bool)
    requires store.Valid()
    modifies store
    ensures store.Valid()
    ensures old(store.len) > 0 ==> ok && store.file == old(store.file) && store.len == old(store.len)
    ensures old(store.len) == 0 ==> (ok <==> |items| <= |old(store.file)|)
    ensures old(store.len) == 0 && ok ==>
              store.len == |items| && store.file == Over(Leaves(leaf, items), old(store.file))
    ensures old(store.len) == 0 && !ok ==>
              exists done: set<nat> :: BlocksWritten(done, store.file, store.len, old(store.file), Leaves(leaf, items))
  {
    hide BlocksWritten, Leaves, Splice, Chunk, ChunkCount, Over, BlockEnd;
    if store.len > 0 {
      return true;
    }
    ghost var target, was := Leaves(leaf, items), store.file;
    var todo, done: set<nat> := Below(ChunkCount(|items|, BUILD_DATA_BLOCK_SIZE)), {};
    NoBlocks(was, target);
    while todo != {}
      invariant forall k: nat :: k < ChunkCount(|items|, BUILD_DATA_BLOCK_SIZE) <==> k in todo || k in done
      invariant forall k: nat | k in done :: k !in todo
      invariant store.Valid() && store.storeSize == |was| && BlocksWritten(done, store.file, store.len, was, target)
      decreases |todo|
    {
      var k :| k in todo;
      BlockOfLeaves(leaf, items, k);
      BlockSpan(leaf, items, k);
      var block := Leaves(leaf, Chunk(items, BUILD_DATA_BLOCK_SIZE, k));
      if BUILD_DATA_BLOCK_SIZE * k + |block| <= |was| {
        OneMoreBlock(done, store.file, store.len, was, target, k, store.fill);
      }
      var copied := store.CopyFromSlice(block, BUILD_DATA_BLOCK_SIZE * k);
      if !copied {
        return false;
      }
      todo, done := todo - {k}, done + {k};
    }
    AllBlocks(done, store.file, store.len, was, target);
    return true;
  }

  lemma BlockSpan<E>(leaf: E -> E, items: seq<E>, k: nat)
    requires k < ChunkCount(|items|, BUILD_DATA_BLOCK_SIZE)
    ensures var block := Leaves(leaf, Chunk(items, BUILD_DATA_BLOCK_SIZE, k));
            BUILD_DATA_BLOCK_SIZE * k + |block| == BlockEnd(|items|, k) <= |items|
    ensures k == ChunkCount(|items|, BUILD_DATA_BLOCK_SIZE) - 1 ==> BlockEnd(|items|, k) == |items|
  {
    ChunkInside(|items|, BUILD_DATA_BLOCK_SIZE, k);
  }

  /** All blocks written: the whole target is in place and the length is its own. */
  lemma AllBlocks<E>(done: set<nat>, file: seq<E>, len: nat, was: seq<E>, target: seq<E>)
    requires BlocksWritten(done, file, len, was, target)
    requires forall k: nat :: k < ChunkCount(|target|, BUILD_DATA_BLOCK_SIZE) <==> k in done
    ensures |target| <= |was| && len == |target| && file == Over(target, was)
  {
    hide ChunkCount;
    if target != [] {
      PieceOf(|target| - 1, |target|, BUILD_DATA_BLOCK_SIZE);
      BlockOf(|target|, (|target| - 1) / BUILD_DATA_BLOCK_SIZE, |target| - 1);
    }
    forall i: nat | i < |target|
      ensures file[i] == target[i]
    {
      PieceOf(i, |target|, BUILD_DATA_BLOCK_SIZE);
    }
  }

  // ---------- trees ----------

  /** The checks and the build that the constructors share, after the file was filled. */
  method FinishTreeInFile<E>(store: DiskStore<E>, node: NodeHash<E>, b: nat, leafs: nat)
    returns (r: Result<MerkleTree<E>>)
    requires b >= 2 && IsPow2(b) && IsPow2(leafs) && leafs > 1
    requires store.Valid() && |store.file| == DivSum(leafs, b)
    modifies store
    ensures r.Ok? <==> old(store.len) == leafs && BuildableInFile(leafs, b)
    ensures r.Ok? ==> old(store.len) <= |old(store.file)| && TreeOver(node, r.value, b, old(store.file)[..leafs])
  {
    hide Pow, Geo, Flat, Row, TreeHash, DivSum, RowCount, Levels, IsPow2;
    ghost var leaves, size := store.file[..store.len], |store.file|;
    var rowCount := RowCount(leafs, b);
    RowCountMatchesLevels(leafs, b);
    Pow2Even(leafs);
    FileHoldsTree(leafs, b);
    var root := store.Build(node, b, leafs, rowCount);
    if root.Err? {
      return Err(root.why);
    }
    assert store.file[..store.len] == store.file;
    var t := MerkleTree(BaseTree(store.View()), leafs, store.len, rowCount, root.value, b, 0, 0);
    ViewAnswers(store);
    FullTree(node, t, leaves, rowCount - 1);
    return Ok(t);
  }

  lemma ViewAnswers<E>(s: DiskStore<E>)
    requires s.Valid() && s.len == |s.file|
    ensures s.View() == Answers(s.file)
  {}

  /** What is read back of a new file after its leaves were written. */
  lemma FrontOfFile<E>(leaf: E -> E, items: seq<E>, n: nat, size: nat, file: seq<E>)
    requires n <= |items| && n <= size == |file|
    ensures Over(Leaves(leaf, items[..n]), file)[..n] == Leaves(leaf, items[..n])
    ensures n == |items| ==> items[..n] == items
  {}

  /** `try_from_iter` into a file. */
  method TryFromIterInFile<E>(leaf: E -> E, node: NodeHash<E>, b: nat, hint: Option<nat>, iter: seq<Result<E>>, fill: E)
    returns (r: Result<MerkleTree<E>>)
    requires b != 1
    ensures r.Ok? <==> hint == Some(|iter|) && AllOk(iter) && BuildableInFile(|iter|, b)
    ensures r.Ok? ==> TreeOver(node, r.value, b, Leaves(leaf, Yielded(iter)))
  {
    hide Pow, Leaves, Yielded, DivSum, TreeOver, IsPow2, IsPower, Buildable, BuildableInFile;
    if hint.None? {
      return Err(Rejected);
    }
    var leafs := hint.value;
    BuildableArities(leafs, b);
    var size := TreeSize(leafs, b);
    if size.Err? {
      return Err(Rejected);
    }
    var store := new DiskStore<E>.New(size.value, fill);
    ghost var was := store.file;
    var ok := PopulateFile(store, leaf, iter);
    YieldedAll(iter);
    if !ok {
      assert AllOk(iter) ==> |iter| != leafs;
      return Err(Rejected);
    }
    FrontOfFile(leaf, Yielded(iter), store.len, size.value, was);
    r := FinishTreeInFile(store, node, b, leafs);
  }

  /** `from_par_iter` into a file. */
  method FromParIterInFile<E>(leaf: E -> E, node: NodeHash<E>, b: nat, items: seq<E>, fill: E)
    returns (r: Result<MerkleTree<E>>)
    requires b != 1
    ensures r.Ok? <==> BuildableInFile(|items|, b)
    ensures r.Ok? ==> TreeOver(node, r.value, b, Leaves(leaf, items))
  {
    hide Pow, Leaves, DivSum, TreeOver, IsPow2, IsPower, Buildable, BuildableInFile;
    var leafs := |items|;
    BuildableArities(leafs, b);
    var size := TreeSize(leafs, b);
    if size.Err? {
      return Err(Rejected);
    }
    var store := new DiskStore<E>.New(size.value, fill);
    ghost var was := store.file;
    var ok := PopulateFilePar(store, leaf, items);
    if !ok {
      return Err(Rejected);
    }
    FrontOfFile(leaf, items, leafs, size.value, was);
    r := FinishTreeInFile(store, node, b, leafs);
  }
}
