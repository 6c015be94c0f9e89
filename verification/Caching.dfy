/** The two ways to a level cache, end to end: build a disk store, compact it and reopen it, or build
    the cache directly and give it a reader for its base row. Either way the cached proofs are
    those of the full tree (src/merkle.rs, src/store/disk.rs, src/store/level_cache.rs). */
module Caching {
  import opened Outcome
  import opened Powers
  import opened Shape
  import opened Rows
  import opened Proofs
  import opened Paths
  import opened Soundness
  import opened DiskStores
  import opened LevelCacheStores
  import opened Generation
  import opened Merkle
  import opened Compound

  /** What an opened level cache answers is the flat tree, at the leaves and from the cache start on. */
  lemma OpenedHolds<E>(s: LevelCacheStore<E>, node: NodeHash<E>, b: nat, h: nat, d: nat, leaves: seq<E>)
    requires Opened(s, node, b, h, d, leaves)
    ensures Holds(node, b, leaves, h, s.View(), CacheStart(b, h, d))
  {
    hide Pow, Geo, Flat, Row, CacheStart, LevelCacheStore.ReadAt;
    forall at: nat | at < s.len && (at < |leaves| || at >= CacheStart(b, h, d))
      ensures s.View()[at] == Some(Flat(node, b, leaves, h)[at])
    {
      if at < |leaves| {
        CacheReadsLeaf(s, node, b, h, d, leaves, at);
      } else {
        CacheReadsUpper(s, node, b, h, d, leaves, at);
      }
    }
  }

  /** A range of the base row is read at once from a level cache, with the result of reading its elements
      one by one, whatever the file and the reader hold. */
  lemma CacheRangeIsElements<E>(s: LevelCacheStore<E>, start: nat, end: nat)
    requires start < end <= s.dataWidth <= s.cacheIndexStart
    ensures s.ReadRange(start, end)
         == match RangeOf(s.View(), start, end) case Some(els) => Ok(els) case None => Err(Rejected)
  {
    if end <= s.len {
      if s.ReadRange(start, end).Ok? {
        RangeIs(s.View(), start, end, s.ReadRange(start, end).value);
      } else {
        assert s.View()[end - 1].None?;
      }
    }
  }

  /** So it is from a disk store. */
  lemma DiskRangeIsElements<E>(s: DiskStore<E>, start: nat, end: nat)
    requires s.Valid() && start <= end
    ensures s.ReadRange(start, end)
         == match RangeOf(s.View(), start, end) case Some(els) => Ok(els) case None => Err(Rejected)
  {
    if start < s.len && end <= s.len { RangeIs(s.View(), start, end, s.file[start..end]); }
  }

  /** Leaves and a number of rows to discard that make a level cache. */
  ghost predicate Cacheable<E>(b: nat, leaves: seq<E>, h: nat, d: nat) {
    b >= 2 && IsPow2(b) && BUILD_CHUNK_NODES % b == 0 && Perfect(b, leaves, h) && d < h
  }

  /** The reader, if there is one, serves the base row. */
  ghost predicate Serves<E>(reader: ExternalReader<E>, leaves: seq<E>) {
    reader.offset + |leaves| <= |reader.source| && reader.source[reader.offset..reader.offset + |leaves|] == leaves
  }

  /** A full disk store built over the leaves. */
  method BuildOnDisk<E>(node: NodeHash<E>, b: nat, leaves: seq<E>, fill: E, ghost h: nat)
    returns (r: Result<DiskStore<E>>)
    requires b != 1
    ensures r.Ok? ==> fresh(r.value) && r.value.Valid()
    ensures r.Ok? <==> BuildableInFile(|leaves|, b)
    ensures r.Ok? && Perfect(b, leaves, h) ==>
              h >= 1 && r.value.file == Flat(node, b, leaves, h) && r.value.len == |r.value.file| == Geo(b, h)
  {
    hide Pow, Geo, Flat, Row, TreeHash, DivSum, Levels, RowCount, IsPow2, IsPower;
    BuildableArities(|leaves|, b);
    var size := TreeSize(|leaves|, b);
    if size.Err? {
      return Err(Rejected);
    }
    var store := new DiskStore<E>.New(size.value, fill);
    var copied := store.CopyFromSlice(leaves, 0);
    if !copied {
      return Err(Rejected);
    }
    assert store.file[..|leaves|] == leaves;
    RowCountMatchesLevels(|leaves|, b);
    FileHoldsTree(|leaves|, b);
    Pow2Even(|leaves|);
    var root := store.Build(node, b, |leaves|, RowCount(|leaves|, b));
    if root.Err? {
      return Err(root.why);
    }
    if Perfect(b, leaves, h) { TreeHeight(b, |leaves|, h); }
    assert store.file[..store.len] == store.file;
    return Ok(store);
  }

  /** The height of a tree, from the number of its leaves. */
  lemma TreeHeight(b: nat, leafs: nat, h: nat)
    requires b >= 2 && leafs == Pow(b, h) > 1
    ensures h >= 1 && Levels(leafs, b) == h && IsPower(b, leafs)
  {
    LevelsPerfect(b, h);
    PowSmall(b);
  }

  /** A disk store that was built and not compacted. */
  ghost predicate OnDisk<E>(s: DiskStore<E>, node: NodeHash<E>, b: nat, h: nat, leaves: seq<E>)
    reads s
  {
    s.Valid() && Perfect(b, leaves, h) && s.file == Flat(node, b, leaves, h) && s.len == |s.file| == Geo(b, h)
  }

  lemma OnDiskHolds<E>(s: DiskStore<E>, node: NodeHash<E>, b: nat, h: nat, leaves: seq<E>)
    requires OnDisk(s, node, b, h, leaves)
    ensures Holds(node, b, leaves, h, s.View(), 0)
  {
    hide Pow, Geo, Flat, Row;
  }

  /** A proof for leaf i from the full store: the one that `ProveFromCache` gets from the caches made of it. */
  method ProveFromDisk<E(!new)>(store: DiskStore<E>, node: NodeHash<E>, b: nat, i: nat, leafs: nat,
                                ghost h: nat, ghost leaves: seq<E>)
    returns (r: Result<Proof<E>>)
    requires b != 1 && store.Valid()
    ensures b >= 2 && IsPow2(b) && h >= 1 && OnDisk(store, node, b, h, leaves) && leafs == |leaves| ==>
              && (i >= leafs ==> r.Err?)
              && (i < leafs ==> && r == Ok(BaseProof(node, b, leaves, h, i))
                                && (HeightFree(node) ==> Validate(node, b, r.value) == Ok(true)))
  {
    hide Pow, Geo, Flat, Row, TreeHash, BaseProof, Validate, Holds, DiskStore.View, IsPow2;
    ghost var good := b >= 2 && IsPow2(b) && h >= 1 && OnDisk(store, node, b, h, leaves) && leafs == |leaves|;
    if good { OnDiskHolds(store, node, b, h, leaves); }
    var tree := FromDataStore(store.View(), leafs, b, 0, 0, node, h, leaves, 0);
    if tree.Err? {
      return Err(tree.why);
    }
    if good && i < leafs { FullTreeOwes(node, tree.value, h, leaves, i); }
    r := GenProof(tree.value, i, node, h);
    if good && i < leafs && HeightFree(node) { BaseProofValidates(node, b, leaves, h, i); }
  }

  lemma FullTreeOwes<E>(node: NodeHash<E>, t: MerkleTree<E>, h: nat, leaves: seq<E>, i: nat)
    requires BaseOk(node, t, h, 0) && BaseLeaves(t) == leaves && i < |leaves|
    ensures TreeOk(node, t, h, 0) && i < t.leafs && OwedProof(node, t, h, 0, i) == BaseProof(node, t.base, leaves, h, i)
  {
    hide Pow, Geo, Flat, Row, TreeHash, Holds, BaseProof;
  }

  /** Leaves and a number of rows to discard that make a level cache, whatever the height is called. */
  ghost predicate MakesCache(b: nat, leafs: nat, d: nat) {
    BuildableInFile(leafs, b) && d < Levels(leafs, b)
  }

  lemma CacheableMakesCache<E>(b: nat, leaves: seq<E>, h: nat, d: nat)
    ensures Cacheable(b, leaves, h, d) ==> MakesCache(b, |leaves|, d)
    ensures MakesCache(b, |leaves|, d) ==> Cacheable(b, leaves, Levels(|leaves|, b), d)
  {
    if Cacheable(b, leaves, h, d) {
      PowStrict(b, 0, h);
      PowSmall(b);
      TreeHeight(b, |leaves|, h);
    }
    if MakesCache(b, |leaves|, d) { PowerHeight(b, |leaves|); }
  }

  /** Build on disk, compact and reopen: version 1 without a reader, version 2 with one. */
  method CompactAndReopen<E>(node: NodeHash<E>, b: nat, leaves: seq<E>, d: nat, reader: Option<ExternalReader<E>>,
                             fill: E, ghost h: nat)
    returns (r: Result<LevelCacheStore<E>>)
    requires b != 1
    ensures r.Ok? <==> MakesCache(b, |leaves|, d)
    ensures Cacheable(b, leaves, h, d) && (reader.Some? ==> Serves(reader.value, leaves)) ==>
              r.Ok? && Opened(r.value, node, b, h, d, leaves) && r.value.reader == reader
  {
    hide Pow, Geo, Flat, Row, TreeHash, DivSum, Levels, RowCount, IsPow2, IsPower, CacheStart;
    CacheableMakesCache(b, leaves, h, d);
    ghost var height := if BuildableInFile(|leaves|, b) then Levels(|leaves|, b) else h;
    if BuildableInFile(|leaves|, b) { PowerHeight(b, |leaves|); }
    var store := BuildOnDisk(node, b, leaves, fill, height);
    if store.Err? {
      return Err(store.why);
    }
    if Cacheable(b, leaves, h, d) { SameHeight(b, |leaves|, h); }
    ghost var flat := store.value.file;
    if MakesCache(b, |leaves|, d) { CompactedFile(node, b, leaves, height, d); }
    var size := store.value.len;
    var compacted := store.value.Compact(b, d, reader.None?, height);
    if compacted.Err? {
      return Err(compacted.why);
    }
    var file := store.value.file;
    if reader.None? {
      r := LevelCacheStore.NewFromDisk(file, size, b, d, fill, height);
    } else {
      r := LevelCacheStore.NewFromDiskWithReader(file, size, b, d, reader.value, fill, height);
    }
    assert [] + flat[size..] == flat[size..];
  }

  lemma SameHeight(b: nat, leafs: nat, h: nat)
    requires b >= 2 && leafs == Pow(b, h)
    ensures Levels(leafs, b) == h
  {
    LevelsPerfect(b, h);
  }

  lemma CompactedFile<E>(node: NodeHash<E>, b: nat, leaves: seq<E>, h: nat, d: nat)
    requires Cacheable(b, leaves, h, d)
    ensures var start := CacheStart(b, h, d);
            && start == Geo(b, h) - Geo(b, h - 1 - d) && |Flat(node, b, leaves, h)| == Geo(b, h) && |leaves| <= start
            && Flat(node, b, leaves, h)[..Pow(b, h)] == leaves
            && |Flat(node, b, leaves, h)[start..]| == Geo(b, h - 1 - d)
  {
    hide Pow, Geo, Row;
    FlatLen(node, b, leaves, h, h);
    FlatPrefix(node, b, leaves, 0, h);
    FlatZero(node, b, leaves);
  }

  /** Build the cache directly: until it has a reader for its base row it answers wrongly. */
  method BuildCache<E>(node: NodeHash<E>, b: nat, leaves: seq<E>, d: nat, fill: E, ghost h: nat)
    returns (r: Result<LevelCacheStore<E>>)
    requires b != 1
    ensures r.Ok? ==> fresh(r.value)
    ensures r.Ok? <==> MakesCache(b, |leaves|, d)
    ensures Cacheable(b, leaves, h, d) ==> r.Ok? && Unread(r.value, node, b, h, d, leaves)
  {
    hide Pow, Geo, Flat, Row, TreeHash, DivSum, Levels, RowCount, IsPow2, IsPower, CacheStart, RowsFit, RootAdmitted,
         CacheBuilt;
    CacheableMakesCache(b, leaves, h, d);
    BuildableArities(|leaves|, b);
    var size := TreeSize(|leaves|, b);
    if size.Err? {
      return Err(Rejected);
    }
    ghost var height := Levels(|leaves|, b);
    ghost var good := MakesCache(b, |leaves|, d);
    if good { CacheRoom(node, b, leaves, height, d); }
    if Cacheable(b, leaves, h, d) { SameHeight(b, |leaves|, h); }
    r := LevelCacheStore.NewFromSlice(size.value, b, leaves, d, fill, height);
    if r.Err? {
      return;
    }
    var store := r.value;
    Pow2Even(|leaves|);
    RowCountMatchesLevels(|leaves|, b);
    var root := store.Build(node, b, |leaves|, RowCount(|leaves|, b), Some(d));
    if root.Err? {
      return Err(root.why);
    }
    return Ok(store);
  }

  /** The numbers of a store that a cache is built in. */
  lemma CacheRoom<E>(node: NodeHash<E>, b: nat, leaves: seq<E>, h: nat, d: nat)
    requires Cacheable(b, leaves, h, d)
    ensures TakenFor(b, h, DivSum(|leaves|, b)) && DivSum(|leaves|, b) == Geo(b, h) == |Flat(node, b, leaves, h)|
    ensures CacheStart(b, h, d) + Geo(b, h - 1 - d) == Geo(b, h)
  {
    hide Pow, Geo, Flat, Row;
    DivSumPerfect(b, h);
    FlatLen(node, b, leaves, h, h);
  }

  /** Opening a tree over it before the reader is set fails: the root is not where it is looked for. */
  lemma UnreadIsRefused<E>(s: LevelCacheStore<E>, node: NodeHash<E>, b: nat, h: nat, d: nat, leaves: seq<E>)
    requires Unread(s, node, b, h, d, leaves)
    ensures |s.View()| > 0 && s.View()[|s.View()| - 1] == None
  {
    hide Pow, Geo, Flat, Row, CacheStart, LevelCacheStore.ReadAt;
    UnreadReads(s, node, b, h, d, leaves, s.len - 1);
  }

  /** Build the cache directly, then set the reader its base row is read through. */
  method BuildDirectly<E>(node: NodeHash<E>, b: nat, leaves: seq<E>, d: nat, reader: ExternalReader<E>, fill: E,
                          ghost h: nat)
    returns (r: Result<LevelCacheStore<E>>)
    requires b != 1
    ensures r.Ok? <==> MakesCache(b, |leaves|, d)
    ensures Cacheable(b, leaves, h, d) && Serves(reader, leaves) ==>
              r.Ok? && Opened(r.value, node, b, h, d, leaves) && r.value.reader == Some(reader)
  {
    hide Pow, Geo, Flat, Row, CacheStart;
    r := BuildCache(node, b, leaves, d, fill, h);
    if r.Ok? {
      r.value.SetExternalReader(reader);
    }
  }

  /** Where too few discarded rows do not make a request fail: a binary tree in a version 1 cache that lost
      one row, asked as if it had lost none, for a leaf below the second node of row 1. */
  predicate Misread(v1: bool, b: nat, d: nat, i: nat) {
    v1 && b == 2 && d == 1 && (i == 2 || i == 3)
  }

  /** The proof of leaf i with the first node of row 2 in the place of the first node of row 1. */
  ghost function MisreadProof<E>(node: NodeHash<E>, b: nat, leaves: seq<E>, h: nat, i: nat): Proof<E>
    requires Perfect(b, leaves, h) && i < |leaves|
  {
    var p, row := BaseProof(node, b, leaves, h, i), Row(node, b, leaves, 2);
    if |p.hashes| > 2 && row != [] then p.(hashes := p.hashes[2 := row[0]]) else p
  }

  /** A cached proof for leaf i from a store that discarded d rows. If no fewer rows are taken as
      discarded it is the proof of the full tree, and a valid one. If fewer are, it fails, but for
      the requests that misread the cache and get a wrong proof. */
  method ProveFromCache<E(!new)>(store: LevelCacheStore<E>, node: NodeHash<E>, b: nat, i: nat, leafs: nat,
                                 rows: Option<nat>, fill: E,
                                 ghost h: nat, ghost leaves: seq<E>, ghost d: nat)
    returns (r: Result<Proof<E>>)
    requires b != 1
    ensures i >= leafs ==> r.Err?
    ensures Cacheable(b, leaves, h, d) && Opened(store, node, b, h, d, leaves) && i < |leaves| == leafs ==>
              if d <= (if b == 2 then 7 else if b == 4 then 5 else 2) && (rows.Some? ==> d <= rows.value) then
                && r == Ok(BaseProof(node, b, leaves, h, i))
                && (HeightFree(node) ==> Validate(node, b, r.value) == Ok(true))
              else if rows == Some(0) && Misread(store.reader.None?, b, d, i) then
                r == Ok(MisreadProof(node, b, leaves, h, i))
              else r.Err?
  {
    hide Pow, Geo, Flat, Row, TreeHash, CacheStart, BaseProof, Taken, Validate, Opened, BaseOk, BaseLeaves,
         Holds, LeavesAnswer, CachedWalk, MisreadProof, Typed;
    ghost var good := Cacheable(b, leaves, h, d) && Opened(store, node, b, h, d, leaves) && i < |leaves| == leafs;
    if good { CacheLen(store, node, b, h, d, leaves); OpenedHolds(store, node, b, h, d, leaves); }
    ghost var lo := if good then CacheStart(b, h, d) else 0;
    var tree := FromDataStore(store.View(), leafs, b, 0, 0, node, h, leaves, lo);
    if tree.Err? {
      return Err(tree.why);
    }
    TypedBase(tree.value);
    if good {
      CachedTreeReady(node, tree.value, h, lo, leaves);
      assert Covers(b, h, rows, d) <==> d <= Taken(b, h, rows);
      assert Covers(b, h, rows, 1) <==> 1 <= Taken(b, h, rows);
      CacheOutcome(store, node, b, h, d, leaves, Taken(b, h, rows), i);
    }
    r := GenCachedProof(tree.value, i, rows, node, fill, h, d);
    if good && HeightFree(node) { BaseProofValidates(node, b, leaves, h, i); }
  }

  /** `gen_proof` on an opened cache, without the help of a partial tree: the proof owed exactly if no row was
      lost, but for the requests that misread the cache. */
  method ProveWithoutPartial<E(!new)>(store: LevelCacheStore<E>, node: NodeHash<E>, b: nat, i: nat, leafs: nat,
                                      ghost h: nat, ghost leaves: seq<E>, ghost d: nat)
    returns (r: Result<Proof<E>>)
    requires b != 1
    ensures i >= leafs ==> r.Err?
    ensures b >= 2 && IsPow2(b) && Opened(store, node, b, h, d, leaves) && i < |leaves| == leafs ==>
              if d == 0 then r == Ok(BaseProof(node, b, leaves, h, i))
              else if Misread(store.reader.None?, b, d, i) then r == Ok(MisreadProof(node, b, leaves, h, i))
              else r.Err?
  {
    hide Pow, Geo, Flat, Row, TreeHash, CacheStart, BaseProof, Opened, BaseOk, BaseLeaves, Holds, LeavesAnswer,
         CachedWalk, MisreadProof, Typed;
    ghost var good := b >= 2 && IsPow2(b) && Opened(store, node, b, h, d, leaves) && i < |leaves| == leafs;
    if good { CacheLen(store, node, b, h, d, leaves); OpenedHolds(store, node, b, h, d, leaves); }
    ghost var lo := if good then CacheStart(b, h, d) else 0;
    var tree := FromDataStore(store.View(), leafs, b, 0, 0, node, h, leaves, lo);
    if tree.Err? {
      return Err(tree.why);
    }
    TypedBase(tree.value);
    if good {
      CachedTreeReady(node, tree.value, h, lo, leaves);
      CacheOutcome(store, node, b, h, d, leaves, 0, i);
    }
    r := GenProof(tree.value, i, node, h);
  }

  lemma TypedBase<E>(t: MerkleTree<E>)
    requires t.data.BaseTree? && t.base >= 2
    ensures Typed(t)
  {}

  lemma CachedTreeReady<E>(node: NodeHash<E>, t: MerkleTree<E>, h: nat, lo: nat, leaves: seq<E>)
    requires BaseOk(node, t, h, lo) && BaseLeaves(t) == leaves
    ensures t.leafs == |leaves| && t.rowCount == h + 1 && t.sub == 0 && t.top == 0
    ensures t.root == TreeHash(node, t.base, h, leaves)
    ensures LeavesAnswer(t.base, leaves, h, t.data.store)
  {
    hide Pow, Geo, Flat, Row, TreeHash, Holds;
    HoldsLeaves(node, t.base, leaves, h, t.data.store, lo);
  }

  /** What the proof loop makes of an opened cache, for every number of rows taken as discarded. */
  lemma CacheOutcome<E>(s: LevelCacheStore<E>, node: NodeHash<E>, b: nat, h: nat, d: nat, leaves: seq<E>,
                        effective: nat, i: nat)
    requires Opened(s, node, b, h, d, leaves) && i < |leaves| && effective < h
    ensures var walk := CachedWalk(node, b, leaves, h, effective, i, s.View());
            var made := Collected(leaves[i], walk, TreeHash(node, b, h, leaves));
            if d <= effective then made == Some(BaseProof(node, b, leaves, h, i))
            else if effective == 0 && Misread(s.reader.None?, b, d, i) then
              made == Some(MisreadProof(node, b, leaves, h, i))
            else made == None
  {
    hide Pow, Geo, Flat, Row, TreeHash, CacheStart, BaseProof, Holds, CachedWalk, MisreadProof,
         LevelCacheStore.ReadAt;
    OpenedHolds(s, node, b, h, d, leaves);
    if d <= effective {
      CachedWalkIsOwed(node, b, leaves, h, effective, i, s.View(), d);
    } else if effective == 0 && Misread(s.reader.None?, b, d, i) {
      MisreadWalk(s, node, b, h, leaves, i);
    } else {
      CacheMisses(s, node, b, h, d, leaves, effective, i);
    }
  }

  /** Some row that the cache lost, but the request does not take as discarded, lacks a sibling. */
  lemma CacheMisses<E>(s: LevelCacheStore<E>, node: NodeHash<E>, b: nat, h: nat, d: nat, leaves: seq<E>,
                       effective: nat, i: nat)
    requires Opened(s, node, b, h, d, leaves) && i < |leaves| && effective < d
    requires !(effective == 0 && Misread(s.reader.None?, b, d, i))
    ensures CachedWalk(node, b, leaves, h, effective, i, s.View()).None?
  {
    hide Pow, Geo, Flat, Row, Up, CacheStart, CachedWalk, LevelCacheStore.ReadAt;
    var second := s.reader.None? && b == 2 && effective == 0 && (i == 2 || i == 3);
    var miss := if second then 2 else effective + 1;
    AncestorFits(b, h, i, miss);
    var k := LostNode(b, i, miss, Up(i, b, miss), s.reader.None?);
    LostRead(s, node, b, h, d, leaves, i, miss, k);
    CachedWalkFails(node, b, leaves, h, effective, i, s.View(), miss, k);
  }

  lemma AncestorFits(b: nat, h: nat, i: nat, l: nat)
    requires b >= 2 && i < Pow(b, h) && l <= h
    ensures Up(i, b, l) < Pow(b, h - l)
  {
    hide Up, Pow;
    UpIsQuotient(i, b, l);
    PowAdd(b, h - l, l);
    GroupFits(i, Pow(b, l), Pow(b, h - l));
  }

  /** A sibling that is not the first node of row 1, where only version 1 binary caches have none
      for the leaves 2 and 3. */
  lemma LostNode(b: nat, i: nat, miss: nat, j: nat, v1: bool) returns (k: nat)
    requires b >= 2 && miss >= 1 && j == Up(i, b, miss)
    requires v1 && b == 2 && miss == 1 ==> i != 2 && i != 3
    ensures j - Rem(j, b) <= k < j - Rem(j, b) + b && k != j
    ensures v1 && miss == 1 ==> k != 0
  {
    var g := j - Rem(j, b);
    k := if j == g + b - 1 then (if b == 2 then g else g + 1) else g + b - 1;
    if b == 2 && miss == 1 && k == 0 {
      assert Up(i, 2, 1) == Quot(Up(i, 2, 0), 2) == Quot(i, 2);
      QuotRem(i, 2);
    }
  }

  lemma LostRead<E>(s: LevelCacheStore<E>, node: NodeHash<E>, b: nat, h: nat, d: nat, leaves: seq<E>, i: nat,
                    miss: nat, k: nat)
    requires Opened(s, node, b, h, d, leaves) && i < |leaves| && 1 <= miss <= d
    requires var j := Up(i, b, miss); j < Pow(b, h - miss) && j - Rem(j, b) <= k < j - Rem(j, b) + b && k != j
    requires s.reader.None? && miss == 1 ==> k != 0
    ensures MissesInRow(node, b, leaves, i, Source(s.View(), [], 0, 0), miss, k)
  {
    hide Pow, Geo, Flat, Row, Up, CacheStart, Rem, Quot, LevelCacheStore.ReadAt;
    var j, base := Up(i, b, miss), Start(node, b, leaves, miss);
    GroupInRow(node, b, leaves, h, miss, j);
    CacheStartsAtRow(node, b, leaves, h, d);
    StartsInOrder(node, b, leaves, h, miss, d + 1);
    StartsInOrder(node, b, leaves, h, 0, miss);
    RowZero(node, b, leaves);
    if miss > 1 { RowAfterFirst(node, b, leaves, h, miss); }
    CacheReadsDiscarded(s, node, b, h, d, leaves, base + k);
  }

  lemma RowAfterFirst<E>(node: NodeHash<E>, b: nat, leaves: seq<E>, h: nat, l: nat)
    requires Perfect(b, leaves, h) && 1 < l <= h
    ensures Start(node, b, leaves, l) > |leaves|
  {
    hide Pow, Geo, Flat, Row;
    StartsInOrder(node, b, leaves, h, 1, l);
    StartsInOrder(node, b, leaves, h, 0, 1);
    RowEnds(node, b, leaves, h, 1);
    RowZero(node, b, leaves);
  }

  lemma CacheLen<E>(s: LevelCacheStore<E>, node: NodeHash<E>, b: nat, h: nat, d: nat, leaves: seq<E>)
    requires Opened(s, node, b, h, d, leaves)
    ensures Perfect(b, leaves, h) && d < h && CacheStart(b, h, d) < s.len
  {}

  // ---------- misread requests ----------

  /** Quotients and remainders on the way of the leaves 2 and 3. */
  lemma SmallPath(b: nat, i: nat)
    requires b == 2 && (i == 2 || i == 3)
    ensures Quot(i, b) == 1 && Rem(i, b) == i - 2 && Quot(1, b) == 0 && Rem(1, b) == 1
  {}

  /** The only sibling in a binary group. */
  ghost function Twin(j: nat, b: nat): nat
    requires b == 2
  {
    if Rem(j, b) == 0 then j + 1 else j - 1
  }

  lemma TwinRead<E>(s: Source<E>, b: nat, j: nat, base: nat, partialBase: nat, shift: nat, el: E)
    requires b == 2 && s.Pick(base, partialBase, shift, Twin(j, b)) == Some(el)
    ensures ReadGroup(s, b, j, base, partialBase, shift) == Some([el])
  {
    hide Source.Pick;
    var g := j - Rem(j, b);
    assert [el] + [] == [el];
    assert ReadRow(s, base, partialBase, shift, j, g + 2, g + 2) == Some([]);
    if j == g {
      assert ReadRow(s, base, partialBase, shift, j, g + 1, g + 2) == Some([el]);
    } else {
      assert j == g + 1 && Twin(j, b) == g;
      assert ReadRow(s, base, partialBase, shift, j, g + 1, g + 2) == Some([]);
    }
  }

  lemma TwinSibling<E>(row: seq<E>, b: nat, j: nat)
    requires b == 2 && j - Rem(j, b) + 2 <= |row|
    ensures Siblings(row, b, j) == [row[Twin(j, b)]]
  {
    hide Rem;
    var g := j - Rem(j, b);
    if j == g {
      assert row[g..j] == [] && row[j + 1..g + 2] == [row[j + 1]];
    } else {
      assert row[g..j] == [row[g]] && row[j + 1..g + 2] == [];
    }
  }

  /** The flat positions of the first rows of a binary tree in a cache that lost row 1. */
  lemma MisreadShape<E>(s: LevelCacheStore<E>, node: NodeHash<E>, b: nat, h: nat, leaves: seq<E>)
    requires b == 2 && Opened(s, node, b, h, 1, leaves)
    ensures h >= 2 && |leaves| >= 4 && |s.View()| == Geo(b, h) && |Row(node, b, leaves, 1)| >= 2
    ensures |Row(node, b, leaves, 2)| > 0
    ensures CacheStart(b, h, 0) == Start(node, b, leaves, 1) == |leaves|
    ensures CacheStart(b, h, 1) == Start(node, b, leaves, 2) > |leaves|
    ensures Start(node, b, leaves, 2) < |Flat(node, b, leaves, h)|
    ensures Flat(node, b, leaves, h)[Start(node, b, leaves, 2)] == Row(node, b, leaves, 2)[0]
  {
    hide Pow, Geo, Flat, Row, CacheStart;
    BinaryRows(node, b, h, leaves);
    CacheStartsAtRow(node, b, leaves, h, 0);
    CacheStartsAtRow(node, b, leaves, h, 1);
    RowZero(node, b, leaves);
    RowEnds(node, b, leaves, h, 0);
    RowEnds(node, b, leaves, h, 1);
    RowEnds(node, b, leaves, h, 2);
    FlatAt(node, b, leaves, 2, h, 0);
  }

  /** What goes wrong in a misread: taking no row as discarded, the proof loop asks a version 1 cache for
      the first node of row 1, and is answered with the first cached node, that of row 2. */
  lemma MisreadRow<E>(s: LevelCacheStore<E>, node: NodeHash<E>, b: nat, h: nat, leaves: seq<E>, c: Source<E>, w: nat,
                      o: nat)
    requires b == 2 && Opened(s, node, b, h, 1, leaves) && s.reader.None?
    requires c.store == s.View() && c.dataWidth == |leaves| && c.cacheStart == CacheStart(b, h, 0)
    ensures |Row(node, b, leaves, 2)| > 0
    ensures ReadGroup(c, b, 1, Start(node, b, leaves, 1), w, o) == Some([Row(node, b, leaves, 2)[0]])
  {
    hide Pow, Geo, Flat, Row, CacheStart, ReadGroup, LevelCacheStore.ReadAt;
    MisreadShape(s, node, b, h, leaves);
    SmallPath(b, 2);
    CacheReadsDiscarded(s, node, b, h, 1, leaves, |leaves|);
    TwinRead(c, b, 1, Start(node, b, leaves, 1), w, o, Row(node, b, leaves, 2)[0]);
  }

  /** Row 0 is read as it is. */
  lemma MisreadBase<E>(s: LevelCacheStore<E>, node: NodeHash<E>, b: nat, h: nat, leaves: seq<E>, i: nat, c: Source<E>,
                       o: nat)
    requires b == 2 && Opened(s, node, b, h, 1, leaves) && (i == 2 || i == 3)
    requires c.store == s.View() && c.dataWidth == |leaves|
    ensures |leaves| >= 4 && ReadGroup(c, b, i, 0, 0, o) == Some([leaves[5 - i]])
  {
    hide Pow, Geo, Flat, Row, CacheStart, ReadGroup, LevelCacheStore.ReadAt;
    MisreadShape(s, node, b, h, leaves);
    SmallPath(b, i);
    CacheReadsLeaf(s, node, b, h, 1, leaves, 5 - i);
    TwinRead(c, b, i, 0, 0, o, leaves[5 - i]);
  }

  /** So is everything from row 2 on. */
  lemma MisreadTop<E>(s: LevelCacheStore<E>, node: NodeHash<E>, b: nat, h: nat, leaves: seq<E>, c: Source<E>, x: nat,
                      y: nat, z: nat)
    requires b == 2 && Opened(s, node, b, h, 1, leaves)
    requires c.store == s.View() && c.cacheStart == CacheStart(b, h, 0)
    ensures h >= 2 && |c.store| == Geo(b, h)
    ensures WalkAt(node, b, leaves, c, 2, 0, x, y, z)
         == Some(Trail(SiblingsUpTo(node, b, leaves, 2, h, 0), PathUpTo(b, 2, h, 0)))
  {
    hide Pow, Geo, Flat, Row, CacheStart, Picks, WalkAt, SiblingsUpTo, PathUpTo, Holds, LevelCacheStore.ReadAt;
    MisreadShape(s, node, b, h, leaves);
    OpenedHolds(s, node, b, h, 1, leaves);
    FullPicks(node, b, leaves, h, 2, 0, c, x, y, z, CacheStart(b, h, 1));
    TreeWalk(node, b, leaves, h, 2, 0, c, x, y, z);
  }

  /** A cached walk starts at row 0. */
  lemma CachedWalkAt<E>(node: NodeHash<E>, b: nat, leaves: seq<E>, h: nat, d: nat, i: nat, store: seq<Option<E>>)
    requires Perfect(b, leaves, h) && d < h && i < |leaves|
    ensures var c := CachedSource(node, b, leaves, h, d, i, store);
            && c.store == store && c.dataWidth == |leaves| && c.cacheStart == CacheStart(b, h, d)
            && CachedWalk(node, b, leaves, h, d, i, store)
               == WalkAt(node, b, leaves, c, 0, i, 0, Pow(b, d + 1), Offset(b, d + 1, SegmentIndex(b, d + 1, i), 0))
  {
    hide Pow, Geo, Flat, Row, Walk, CacheStart, Offset, SegmentIndex;
    SegmentFits(b, leaves, h, d, i);
    RowZero(node, b, leaves);
  }

  /** The trail of a misread. */
  lemma MisreadTrail<E>(s: LevelCacheStore<E>, node: NodeHash<E>, b: nat, h: nat, leaves: seq<E>, i: nat)
    requires b == 2 && Opened(s, node, b, h, 1, leaves) && s.reader.None? && (i == 2 || i == 3)
    ensures h >= 2 && |leaves| >= 4 && |Row(node, b, leaves, 2)| > 0
    ensures CachedWalk(node, b, leaves, h, 0, i, s.View())
         == Onward(Some([leaves[5 - i]]), i - 2, Onward(Some([Row(node, b, leaves, 2)[0]]), 1,
                   Some(Trail(SiblingsUpTo(node, b, leaves, 2, h, 0), PathUpTo(b, 2, h, 0)))))
  {
    hide Pow, Geo, Flat, Row, WalkAt, CachedWalk, CacheStart, Offset, SegmentIndex, SiblingsUpTo, PathUpTo, ReadGroup,
         LevelCacheStore.ReadAt, LevelCacheStore.View, Onward, Quot, Rem;
    MisreadShape(s, node, b, h, leaves);
    SmallPath(b, i);
    var c := CachedSource(node, b, leaves, h, 0, i, s.View());
    var w, o := Pow(b, 1), Offset(b, 1, SegmentIndex(b, 1, i), 0);
    CachedWalkAt(node, b, leaves, h, 0, i, s.View());
    RowZero(node, b, leaves);
    MisreadBase(s, node, b, h, leaves, i, c, o);
    MisreadRow(s, node, b, h, leaves, c, w, Quot(o, b));
    MisreadTop(s, node, b, h, leaves, c, w + Quot(w, b), Quot(Quot(w, b), b), Quot(Quot(o, b), b));
    WalkRow(node, b, leaves, h, c, 0, i, 0, w, o);
    WalkRow(node, b, leaves, h, c, 1, 1, w, Quot(w, b), Quot(o, b));
  }

  /** The trail of the tree itself, up to row 2. */
  lemma TwoRows<E>(node: NodeHash<E>, b: nat, h: nat, leaves: seq<E>, i: nat)
    requires b == 2 && h >= 2 && (i == 2 || i == 3) && |leaves| >= 4 && |Row(node, b, leaves, 1)| >= 2
    ensures SiblingsUpTo(node, b, leaves, 0, h, i)
         == [leaves[5 - i]] + ([Row(node, b, leaves, 1)[0]] + SiblingsUpTo(node, b, leaves, 2, h, 0))
    ensures PathUpTo(b, 0, h, i) == [i - 2] + ([1] + PathUpTo(b, 2, h, 0))
  {
    hide Row, Siblings, Quot, Rem;
    SmallPath(b, i);
    RowZero(node, b, leaves);
    TwinSibling(leaves, b, i);
    TwinSibling(Row(node, b, leaves, 1), b, 1);
    assert SiblingsUpTo(node, b, leaves, 1, h, 1)
        == Siblings(Row(node, b, leaves, 1), b, 1) + SiblingsUpTo(node, b, leaves, 2, h, 0);
    assert PathUpTo(b, 1, h, 1) == [1] + PathUpTo(b, 2, h, 0);
  }

  lemma MisreadWalk<E>(s: LevelCacheStore<E>, node: NodeHash<E>, b: nat, h: nat, leaves: seq<E>, i: nat)
    requires b == 2 && Opened(s, node, b, h, 1, leaves) && s.reader.None? && (i == 2 || i == 3) && i < |leaves|
    ensures h >= 2
    ensures Collected(leaves[i], CachedWalk(node, b, leaves, h, 0, i, s.View()), TreeHash(node, b, h, leaves))
         == Some(MisreadProof(node, b, leaves, h, i))
  {
    hide Pow, Geo, Flat, Row, CachedWalk, CacheStart, SiblingsUpTo, PathUpTo, TreeHash, LevelCacheStore.ReadAt;
    MisreadShape(s, node, b, h, leaves);
    MisreadTrail(s, node, b, h, leaves, i);
    TwoRows(node, b, h, leaves, i);
    Patched([leaves[i]], leaves[5 - i], Row(node, b, leaves, 1)[0], Row(node, b, leaves, 2)[0],
            SiblingsUpTo(node, b, leaves, 2, h, 0), [TreeHash(node, b, h, leaves)]);
  }

  lemma Patched<E>(item: seq<E>, x: E, y: E, z: E, rest: seq<E>, root: seq<E>)
    requires |item| == 1
    ensures var s := item + ([x] + ([y] + rest)) + root;
            |s| > 2 && s[2 := z] == item + ([x] + ([z] + rest)) + root
  {}

  /** The misread proof, entry by entry. */
  lemma MisreadEntries<E>(node: NodeHash<E>, b: nat, h: nat, leaves: seq<E>, i: nat)
    requires b == 2 && Perfect(b, leaves, h) && h >= 2 && (i == 2 || i == 3) && |leaves| >= 4
    requires |Row(node, b, leaves, 1)| >= 2 && |Row(node, b, leaves, 2)| > 0
    ensures var p := MisreadProof(node, b, leaves, h, i);
            && p.path == PathUpTo(b, 0, h, i) && |p.path| == h && p.path[1] == 1 && p.path[2..] == PathUpTo(b, 2, h, 0)
            && |p.hashes| == h + 2 && p.hashes[2] == Row(node, b, leaves, 2)[0]
            && p.hashes[|p.hashes| - 1] == TreeHash(node, b, h, leaves)
            && p.sub == None && p.topLayerNodes == 0 && p.subTreeLayerNodes == 0
            && (Row(node, b, leaves, 2)[0] == Row(node, b, leaves, 1)[0] ==> p == BaseProof(node, b, leaves, h, i))
  {
    hide Pow, Row, SiblingsUpTo, PathUpTo, TreeHash;
    TwoRows(node, b, h, leaves, i);
    SiblingsLen(node, b, leaves, h, 0, h, i);
    BinaryStride(h);
    var p, q := BaseProof(node, b, leaves, h, i), PathUpTo(b, 2, h, 0);
    assert p.path == [i - 2, 1] + q;
    assert p.hashes[2] == Row(node, b, leaves, 1)[0];
    assert p.hashes[2 := p.hashes[2]] == p.hashes;
  }

  lemma BinaryRows<E>(node: NodeHash<E>, b: nat, h: nat, leaves: seq<E>)
    requires b == 2 && Perfect(b, leaves, h) && h >= 2
    ensures |leaves| >= 4 && |Row(node, b, leaves, 1)| >= 2 && |Row(node, b, leaves, 2)| > 0
  {
    hide Pow, Row;
    PowSmall(b);
    PowStep(b, 1);
    PowMonotone(b, 2, h);
    PowMonotone(b, 1, h - 1);
    RowLen(node, b, leaves, h, 1);
    RowLen(node, b, leaves, h, 2);
  }

  /** A misread gives a wrong proof: if it is accepted, the two nodes that were mixed up are equal, so that
      nothing was mixed up, or two node lists collide. */
  lemma MisreadIsRejected<E(!new)>(node: NodeHash<E>, b: nat, h: nat, leaves: seq<E>, i: nat)
    requires HeightFree(node) && b == 2 && Perfect(b, leaves, h) && h >= 2 && (i == 2 || i == 3)
    ensures i < |leaves| && |Row(node, b, leaves, 1)| > 0 && |Row(node, b, leaves, 2)| > 0
    ensures var p := MisreadProof(node, b, leaves, h, i);
            var same := Row(node, b, leaves, 2)[0] == Row(node, b, leaves, 1)[0];
            && p.hashes != []
            && (same ==> p == BaseProof(node, b, leaves, h, i) && Validate(node, b, p) == Ok(true))
            && (Validate(node, b, p) == Ok(true) ==>
                  same || Collision(node, b, leaves, h, p.hashes, p.path, p.hashes[0], 1, 0))
  {
    hide Pow, Row, TreeHash, Climb, PathUpTo, MisreadProof, Assembled, Collision, BaseProof;
    BinaryRows(node, b, h, leaves);
    MisreadEntries(node, b, h, leaves, i);
    BaseProofValidates(node, b, leaves, h, i);
    var p := MisreadProof(node, b, leaves, h, i);
    if Validate(node, b, p) == Ok(true) {
      assert EndsAtRoot(node, b, leaves, h, p.hashes, p.path, p.hashes[0], 1, 0);
      var ns := FirstStep(node, b, leaves, h, p.hashes, p.path, p.hashes[0], 1, 0);
      SecondStep(node, b, h, leaves, p.hashes, p.path, node(ns, 0));
      if Collision(node, b, leaves, h, p.hashes, p.path, node(ns, 0), 2, 1) {
        CollisionAbove(node, b, leaves, h, p.hashes, p.path, p.hashes[0], 1, 0, ns);
      }
    }
  }

  /** From the second step on: the sibling taken for the first node of row 1 is that node, or a collision. */
  lemma SecondStep<E(!new)>(node: NodeHash<E>, b: nat, h: nat, leaves: seq<E>, hashes: seq<E>, path: seq<nat>, x: E)
    requires HeightFree(node) && b == 2 && Perfect(b, leaves, h) && h >= 2 && |path| == h && |hashes| == h + 2
    requires path[1] == 1 && path[2..] == PathUpTo(b, 2, h, 0) && |Row(node, b, leaves, 1)| >= 2
    requires EndsAtRoot(node, b, leaves, h, hashes, path, x, 2, 1)
    ensures hashes[2] == Row(node, b, leaves, 1)[0] || Collision(node, b, leaves, h, hashes, path, x, 2, 1)
  {
    hide Pow, Row, TreeHash, Climb, PathUpTo, Decode;
    var ns := FirstStep(node, b, leaves, h, hashes, path, x, 2, 1);
    assert ns[0] == hashes[2..][0] == hashes[2];
    var up := node(ns, 1);
    StepsOfStride(b, 3, h - 2);
    BinaryStride(h - 2);
    ClimbSound(node, b, leaves, h, hashes, path, up, 3, 2);
    if Collision(node, b, leaves, h, hashes, path, up, 3, 2) {
      CollisionAbove(node, b, leaves, h, hashes, path, x, 2, 1, ns);
    } else {
      PathNamesLeaf(b, h, 2, 0, path, 2);
      ChildOf(node, b, leaves, h, 1, 0, ns, 1, 0);
      var group := GroupAt(node, b, leaves, h, 1, 0);
      if ns != group { assert Clash(node, ns, group); }
    }
  }
}
