/** The level cache (src/store/level_cache.rs): a store that keeps only the upper rows of the
    tree, reached either by a build that truncates its file as it goes or by opening a
    compacted disk store. Files are sequences of elements. */
module LevelCacheStores {
  import opened Outcome
  import opened Powers
  import opened Sequences
  import opened Shape
  import opened Rows
  import opened Chunks
  import opened Layers
  import opened DiskStores

  /** `ExternalReader`: serves the base row from `offset` on in some other file. */
  datatype ExternalReader<E> = ExternalReader(offset: nat, source: seq<E>)
  {
    function Read(start: nat, end: nat): Result<seq<E>>
      requires start <= end
    {
      if end + offset <= |source| then Ok(source[start + offset..end + offset]) else Err(Rejected)
    }
  }

  /** Flat position of the first cached node: everything above the base row and d more rows. */
  ghost function CacheStart(b: nat, h: nat, d: nat): (s: nat)
    requires b >= 2 && d < h
    ensures Pow(b, h) <= s < Geo(b, h)
    ensures Geo(b, h) - s == Geo(b, h - 1 - d) < Pow(b, h)
  {
    CacheSpan(b, h, d);
    Geo(b, h) - Geo(b, h - 1 - d)
  }

  lemma CacheSpan(b: nat, h: nat, d: nat)
    requires b >= 2 && d < h
    ensures Geo(b, h - 1 - d) + Pow(b, h) <= Geo(b, h) && Geo(b, h - 1 - d) < Pow(b, h)
  {
    if d > 0 { GeoStrict(b, h - 1 - d, h - 1); }
    GeoBelowPow(b, h - 1 - d);
    PowMonotone(b, h - d, h);
  }

  /** The bounds check of the reads, on a store of `len` elements. */
  predicate Admitted(len: nat, dataWidth: nat, cacheIndexStart: nat, start: nat, end: nat) {
    start < len && end <= len && (start <= dataWidth || start >= cacheIndexStart)
  }

  /** The reads of a row by `process_layer`, chunk by chunk, all pass that check. */
  ghost predicate RowAdmitted(len: nat, dataWidth: nat, cacheIndexStart: nat, readStart: nat, width: nat) {
    forall k: nat | k < ChunkCount(width, BUILD_CHUNK_NODES) ::
      ChunkAdmitted(len, dataWidth, cacheIndexStart, readStart, width, k)
  }

  ghost predicate ChunkAdmitted(len: nat, dataWidth: nat, cacheIndexStart: nat, readStart: nat, width: nat, k: nat)
    requires k < ChunkCount(width, BUILD_CHUNK_NODES)
  {
    var start := ChunkFrom(readStart, BUILD_CHUNK_NODES, k);
    Admitted(len, dataWidth, cacheIndexStart, start, start + ChunkSize(width, BUILD_CHUNK_NODES, k))
  }

  /** A layer whose chunks are checked so can run exactly when its row is made of whole groups and admitted. */
  lemma RunsExactly<E>(job: Job<E>, file: seq<E>, len: nat, dataWidth: nat, cacheIndexStart: nat)
    requires job.Valid() && job.chunk == BUILD_CHUNK_NODES && job.count == ChunkCount(job.width, job.chunk)
    requires job.rs + job.width <= job.ws <= |file|
    requires forall s: nat, e: nat :: job.admit(s, e) <==> Admitted(len, dataWidth, cacheIndexStart, s, e)
    ensures job.Runs(file) <==>
              job.width % job.b == 0 && RowAdmitted(len, dataWidth, cacheIndexStart, job.rs, job.width)
  {
    hide ChunkFrom, ChunkSize, ChunkCount, Admitted;
    assert forall k: nat | k < job.Threads() ::
        job.Admits(k) <==> ChunkAdmitted(len, dataWidth, cacheIndexStart, job.rs, job.width, k);
  }

  /** A row inside the store and inside the width of the base row is admitted. */
  lemma NarrowRowAdmitted(len: nat, dataWidth: nat, cacheIndexStart: nat, readStart: nat, width: nat)
    requires readStart + width <= len && readStart + width <= dataWidth
    ensures RowAdmitted(len, dataWidth, cacheIndexStart, readStart, width)
  {
    forall k: nat | k < ChunkCount(width, BUILD_CHUNK_NODES)
      ensures ChunkAdmitted(len, dataWidth, cacheIndexStart, readStart, width, k)
    {
      ChunkInside(width, BUILD_CHUNK_NODES, k);
    }
  }

  class LevelCacheStore<E> {
    var file: seq<E>
    var len: nat
    var dataWidth: nat
    var cacheIndexStart: nat
    var reader: Option<ExternalReader<E>>
    const fill: E

    constructor Init(file: seq<E>, len: nat, dataWidth: nat, cacheIndexStart: nat,
                     reader: Option<ExternalReader<E>>, fill: E)
      ensures this.file == file && this.len == len && this.dataWidth == dataWidth
      ensures this.cacheIndexStart == cacheIndexStart && this.reader == reader && this.fill == fill
    {
      this.file, this.len, this.dataWidth := file, len, dataWidth;
      this.cacheIndexStart, this.reader, this.fill := cacheIndexStart, reader, fill;
    }

    /** `new_with_config` on a path that does not exist yet: room for the whole tree. Like all constructors it
        takes exactly the lengths of trees, and for arity 2 those one short; `h` is the height of the tree. */
    static method NewWithConfig(size: nat, b: nat, d: nat, fill: E, ghost h: nat)
      returns (r: Result<LevelCacheStore<E>>)
      requires b != 1
      ensures r.Ok? ==> fresh(r.value)
      ensures r.Ok? ==> b >= 2 && IsPow2(b) && exists e: nat :: TakenFor(b, e, size)
      ensures b >= 2 && IsPow2(b) && TakenFor(b, h, size) ==>
                && (r.Ok? <==> d < h)
                && (r.Ok? ==> && r.value.file == seq(size, _ => fill) && r.value.len == 0
                              && r.value.dataWidth == Pow(b, h)
                              && r.value.cacheIndexStart + Geo(b, h - 1 - d) == size
                              && r.value.reader == None && r.value.fill == fill)
    {
      var shape := CacheShape(size, b, d, h);
      if shape.Err? {
        return Err(Rejected);
      }
      var (leafs, cacheSize) := shape.value;
      if cacheSize > size {
        return Err(Panicked);
      }
      var store := new LevelCacheStore<E>.Init(seq(size, _ => fill), 0, leafs, size - cacheSize, None, fill);
      return Ok(store);
    }

    /** `new_from_slice_with_config` on a path that does not exist yet: the base row is in place. */
    static method NewFromSlice(size: nat, b: nat, data: seq<E>, d: nat, fill: E, ghost h: nat)
      returns (r: Result<LevelCacheStore<E>>)
      requires b != 1
      ensures r.Ok? ==> fresh(r.value)
      ensures r.Ok? ==> b >= 2 && IsPow2(b) && exists e: nat :: TakenFor(b, e, size)
      ensures b >= 2 && IsPow2(b) && TakenFor(b, h, size) ==>
                && (r.Ok? <==> d < h && |data| <= size)
                && (r.Ok? ==> && |r.value.file| == size && r.value.file[..|data|] == data && r.value.len == |data|
                              && r.value.dataWidth == Pow(b, h)
                              && r.value.cacheIndexStart + Geo(b, h - 1 - d) == size
                              && r.value.reader == None && r.value.fill == fill)
    {
      r := NewWithConfig(size, b, d, fill, h);
      if r.Err? {
        return;
      }
      var store := r.value;
      if |data| > |store.file| {
        return Err(Rejected);
      }
      store.file := data + store.file[|data|..];
      store.len := |data|;
    }

    /** `new_from_disk`: reopen a file whose size is not checked. */
    static method NewFromDisk(file: seq<E>, storeRange: nat, b: nat, d: nat, fill: E, ghost h: nat)
      returns (r: Result<LevelCacheStore<E>>)
      requires b != 1
      ensures r.Ok? ==> b >= 2 && IsPow2(b) && exists e: nat :: TakenFor(b, e, storeRange)
      ensures b >= 2 && IsPow2(b) && TakenFor(b, h, storeRange) ==>
                && (r.Ok? <==> d < h)
                && (r.Ok? ==> && fresh(r.value) && r.value.file == file && r.value.len == storeRange
                              && r.value.dataWidth == Pow(b, h)
                              && r.value.cacheIndexStart + Geo(b, h - 1 - d) == storeRange
                              && r.value.reader == None && r.value.fill == fill)
    {
      var shape := CacheShape(storeRange, b, d, h);
      if shape.Err? {
        return Err(Rejected);
      }
      var (leafs, cacheSize) := shape.value;
      if cacheSize > storeRange {
        return Err(Panicked);
      }
      var store := new LevelCacheStore<E>.Init(file, storeRange, leafs, storeRange - cacheSize, None, fill);
      return Ok(store);
    }

    /** `new_from_disk_with_reader`: the file must be exactly the cache. */
    static method NewFromDiskWithReader(file: seq<E>, storeRange: nat, b: nat, d: nat, reader: ExternalReader<E>,
                                        fill: E, ghost h: nat)
      returns (r: Result<LevelCacheStore<E>>)
      requires b != 1
      ensures r.Ok? ==> b >= 2 && IsPow2(b) && exists e: nat :: TakenFor(b, e, storeRange)
      ensures b >= 2 && IsPow2(b) && TakenFor(b, h, storeRange) ==>
                && (r.Ok? <==> d < h && |file| == Geo(b, h - 1 - d))
                && (r.Ok? ==> && fresh(r.value) && r.value.file == file && r.value.len == storeRange
                              && r.value.dataWidth == Pow(b, h)
                              && r.value.cacheIndexStart + Geo(b, h - 1 - d) == storeRange
                              && r.value.reader == Some(reader) && r.value.fill == fill)
    {
      var shape := CacheShape(storeRange, b, d, h);
      if shape.Err? {
        return Err(Rejected);
      }
      var (leafs, cacheSize) := shape.value;
      if cacheSize > storeRange {
        return Err(Panicked);
      }
      if |file| != cacheSize {
        return Err(Rejected);
      }
      var store := new LevelCacheStore<E>.Init(file, storeRange, leafs, storeRange - cacheSize, Some(reader), fill);
      return Ok(store);
    }

    method SetExternalReader(reader: ExternalReader<E>)
      modifies this`reader
      ensures this.reader == Some(reader)
    {
      this.reader := Some(reader);
    }

    // ---------- reads ----------

    predicate InBounds(start: nat, end: nat)
      reads this
    {
      Admitted(len, dataWidth, cacheIndexStart, start, end)
    }

    /** `store_read_range` and `store_read_into`: from the reader, or from the file at an address
        that depends on whether a reader is set. */
    function StoreRead(start: nat, end: nat): Result<seq<E>>
      requires start <= end
      reads this
    {
      if start < dataWidth && reader.Some? then reader.value.Read(start, end) else
      var adjusted := if start >= cacheIndexStart
                      then (if reader.None? then start - cacheIndexStart + dataWidth else start - cacheIndexStart)
                      else start;
      if adjusted + (end - start) <= |file| then Ok(file[adjusted..adjusted + (end - start)]) else Err(Rejected)
    }

    function ReadRange(start: nat, end: nat): Result<seq<E>>
      requires start <= end
      reads this
    {
      if InBounds(start, end) then StoreRead(start, end) else Err(Rejected)
    }

    function ReadAt(index: nat): Result<E>
      reads this
    {
      match ReadRange(index, index + 1)
      case Ok(els) => Ok(els[0])
      case Err(why) => Err(why)
    }

    /** The store as its readers see it. */
    function View(): (v: seq<Option<E>>)
      reads this
      ensures |v| == len
    {
      seq(len, i requires 0 <= i reads this => match ReadAt(i) case Ok(el) => Some(el) case Err(_) => None)
    }

    // ---------- build ----------

    /** `front_truncate`: drop n elements from the front of the file, in place. */
    method FrontTruncate(n: nat) returns (r: Result<()>)
      modifies this`file
      ensures r.Ok? <==> n <= |old(file)|
      ensures r.Ok? ==> file == old(file)[n..]
      ensures r.Err? ==> file == old(file)
    {
      if |file| < n {
        return Err(Rejected);
      }
      var size := |file|;
      var written, after := CopyForward(file, n, 0);
      if written != size - n {
        return Err(Rejected);
      }
      file := after[..written];
      return Ok(());
    }

    /** `process_layer`: exactly when the row right behind `readStart` is hashed, and into what. */
    method ProcessLayer(node: NodeHash<E>, b: nat, width: nat, level: nat, readStart: nat, writeStart: nat)
      returns (r: Result<()>)
      requires b >= 2 && IsPow2(b)
      modifies this`file
      ensures writeStart + width / b > |old(file)| ==> r.Err?
      ensures writeStart == readStart + width && writeStart + width / b <= |old(file)| ==>
                && (r.Ok? <==> && BUILD_CHUNK_NODES % b == 0 && width % b == 0
                               && RowAdmitted(len, dataWidth, cacheIndexStart, readStart, width))
                && (r.Ok? ==> file == Hashed(node, b, level, width, readStart, old(file), fill))
    {
      hide ChunkFrom, ChunkSize, ChunkCount, HashLayer, Splice, RowAdmitted, Job.Runs, Admitted, IsPow2;
      if BUILD_CHUNK_NODES % b != 0 {
        return Err(Rejected);
      }
      if writeStart + width / b > |file| {
        return Err(Panicked);
      }
      var pairs := ZipPairs(width, b);
      var size, base, cache := len, dataWidth, cacheIndexStart;
      var job := Job(node, b, level, width, readStart, writeStart, BUILD_CHUNK_NODES, pairs, fill,
                     (s: nat, e: nat) => Admitted(size, base, cache, s, e));
      if readStart + width <= writeStart { RunsExactly(job, file, size, base, cache); }
      var ok, after := RunJob(job, file);
      if !ok {
        return Err(Rejected);
      }
      file := after;
      return Ok(());
    }

    /** A store made by `new_with_config` for this tree and filled with its leaves. */
    ghost predicate ReadyToBuild(b: nat, leafs: nat, d: nat)
      reads this
    {
      && b >= 2 && IsPow2(b) && BUILD_CHUNK_NODES % b == 0
      && IsPower(b, leafs) && leafs == Pow(b, Levels(leafs, b)) && d < Levels(leafs, b)
      && len == leafs == dataWidth && |file| == Geo(b, Levels(leafs, b))
      && cacheIndexStart == CacheStart(b, Levels(leafs, b), d)
    }

    /** One turn of the build loop: hash the current row, then drop it if it is not to be kept. */
    method BuildRow(node: NodeHash<E>, b: nat, level: nat, width: nat, index: nat, cacheStart: nat)
      returns (r: Result<()>)
      requires b >= 2 && IsPow2(b)
      modifies this`file
      ensures (level == 0 ==> len == width) ==>
                var readStart := ReadStart(level, index, cacheStart);
                && (r.Ok? <==> && BUILD_CHUNK_NODES % b == 0 && width % b == 0
                               && RowAdmitted(len, dataWidth, cacheIndexStart, readStart, width)
                               && readStart + width + width / b <= |old(file)|)
                && (r.Ok? ==> file == AfterTurn(node, b, level, width, index, cacheStart, old(file), fill))
    {
      hide ChunkFrom, ChunkSize, ChunkCount, HashLayer, Splice, RowAdmitted;
      var readStart: nat, writeStart: nat;
      if level == 0 {
        readStart, writeStart := 0, len;
      } else if index < cacheStart {
        readStart, writeStart := 0, width;
      } else {
        readStart, writeStart := index - cacheStart, (index + width) - cacheStart;
      }
      r := ProcessLayer(node, b, width, level, readStart, writeStart);
      if r.Ok? && index < cacheStart {
        r := FrontTruncate(width);
      }
    }

    /** The loop of `build`. */
    method BuildRows(node: NodeHash<E>, b: nat, leafs: nat, cacheStart: nat,
                     ghost h: nat, ghost d: nat, ghost leaves: seq<E>)
      returns (r: Result<nat>)
      requires b >= 2 && IsPow2(b) && len == leafs > 1
      modifies this`file, this`len
      ensures r.Ok? ==> IsPower(b, leafs) && BUILD_CHUNK_NODES % b == 0 && leafs <= |old(file)|
      ensures Starting(b, h, d, cacheStart, leafs, leaves, old(file)) ==>
                && (r.Ok? <==> BUILD_CHUNK_NODES % b == 0 && RowsFit(b, h, d, |old(file)|, dataWidth, cacheIndexStart))
                && (r.Ok? ==> && r == Ok(h) && len + 1 == Geo(b, h) == |Flat(node, b, leaves, h)| <= |old(file)|
                              && file == Flat(node, b, leaves, h)[cacheStart..] + old(file)[Geo(b, h)..])
    {
      hide Pow, Geo, Row, Flat, RowAdmitted, AfterTurn, RowsInFile, CacheStart, Tiles, IsPower, Quot;
      ghost var ready, was := Starting(b, h, d, cacheStart, leafs, leaves, file), file;
      var level: nat, width: nat, levelNodeIndex: nat := 0, leafs, 0;
      var shift := TrailingZeros(b);
      TilesStart(leafs, b);
      if ready { LoopStarts(node, b, h, d, leaves, file); }
      while width > 1
        invariant level == 0 ==> len == width && file == was
        invariant level == 0 ==> width == leafs
        invariant level > 0 ==> BUILD_CHUNK_NODES % b == 0 && leafs <= |was|
        invariant Tiles(leafs, width, b, level)
        invariant ready ==> InLoop(node, b, h, d, leaves, level, width, levelNodeIndex, file, len, was)
        invariant ready ==> forall l: nat | l < level :: RowReadable(b, h, d, l, dataWidth, cacheIndexStart)
        decreases width
      {
        ghost var before := file;
        if ready { LoopBounds(node, b, h, d, leaves, level, width, levelNodeIndex, file, len, was); }
        var turn := BuildRow(node, b, level, width, levelNodeIndex, cacheStart);
        if turn.Err? {
          if ready { TurnFails(node, b, h, d, leaves, level, |was|, dataWidth, cacheIndexStart); }
          return Err(turn.why);
        }
        if ready {
          LoopNext(node, b, h, d, leaves, level, width, width / b, levelNodeIndex, before, len, was, fill);
        }
        ExactStep(leafs, b, level, width);
        ShiftDescends(width, b);
        levelNodeIndex := levelNodeIndex + width;
        level := level + 1;
        width := Shr(width, shift);
        len := levelNodeIndex;
      }
      EndsAtRoot(leafs, b, level, width);
      PowerHeight(b, leafs);
      if ready { LoopEnds(node, b, h, d, leaves, level, width, levelNodeIndex, file, len, was); }
      return Ok(level);
    }

    /** `LevelCacheStore::build`: hash row after row, truncating the front of the file while the row
        just hashed is one to discard. Arity 1 makes the loop run forever and is excluded. */
    method Build(node: NodeHash<E>, b: nat, leafs: nat, rowCount: nat, rowsToDiscard: Option<nat>)
      returns (r: Result<E>)
      requires b != 1
      modifies this`file, this`len
      ensures !IsPow2(b) || old(len) != leafs || leafs % 2 != 0 || rowsToDiscard.None? ==>
                r.Err? && file == old(file) && len == old(len)
      ensures IsPow2(b) && old(len) == leafs && leafs % 2 == 0 && rowsToDiscard.Some? ==>
                var h, d := Levels(leafs, b), rowsToDiscard.value;
                && (r.Ok? <==> && IsPower(b, leafs) && BUILD_CHUNK_NODES % b == 0 && d < h && rowCount == h + 1
                               && RowsFit(b, h, d, |old(file)|, dataWidth, cacheIndexStart)
                               && RootAdmitted(b, h, d, dataWidth, cacheIndexStart))
                && (r.Ok? ==> CacheBuilt(node, b, leafs, h, d, old(file), file, len, r.value))
      ensures rowsToDiscard.Some? && old(ReadyToBuild(b, leafs, rowsToDiscard.value)) ==>
                var h, leaves := Levels(leafs, b), old(file)[..leafs];
                && (r.Ok? <==> rowCount == h + 1)
                && len == |Flat(node, b, leaves, h)| == Geo(b, h)
                && file == Flat(node, b, leaves, h)[cacheIndexStart..]
                && (r.Ok? ==> r.value == TreeHash(node, b, h, leaves))
    {
      hide Pow, Geo, Levels, DivSum, Up, Row, Flat, TreeHash, NextPow2, RowCount, IsPower, IsPow2, RowsFit,
           CacheStart;
      NextPow2Fixed(b);
      ghost var h, was := if b >= 2 then Levels(leafs, b) else 0, file;
      if NextPow2(b) != b || len != leafs || leafs % 2 != 0 || rowsToDiscard.None? {
        ReadyIsEven(b, leafs);
        return Err(Rejected);
      }
      var d := rowsToDiscard.value;
      ghost var power := b >= 2 && IsPower(b, leafs);
      ghost var ready := ReadyToBuild(b, leafs, d);
      if ready { ReadyFits(b, h, d, dataWidth, cacheIndexStart); }
      ShiftOfPow2(b);
      PowerHeight(b, leafs);
      if power { CacheOfTree(b, h, d); DivSumPerfect(b, h); TallEnough(b, h); }
      var cacheSize := GetMerkleTreeCacheSize(leafs, b, d);
      var treeLen := GetMerkleTreeLen(leafs, b);
      if cacheSize.Err? || treeLen.Err? {
        return Err(Rejected);
      }
      if cacheSize.value > treeLen.value {
        return Err(Panicked);
      }
      var cacheStart := treeLen.value - cacheSize.value;
      ghost var leaves := if leafs <= |file| then file[..leafs] else [];
      if power && leafs <= |file| { StartsReady(b, h, d, cacheStart, leafs, file); }
      var levels := BuildRows(node, b, leafs, cacheStart, h, d, leaves);
      if power && leafs > |was| { TooShort(b, h, d, leafs, |was|, dataWidth, cacheIndexStart); }
      if levels.Err? {
        return Err(levels.why);
      }
      RootInFile(node, b, h, d, leaves, cacheStart, file, was);
      len := len + 1;
      if Ok(len) != treeLen || rowCount != levels.value + 1 {
        return Err(Rejected);
      }
      if len < cacheStart + 1 {
        return Err(Panicked);
      }
      var at := len - cacheStart - 1;
      if !InBounds(at, at + 1) || at + 1 > |file| {
        return Err(Rejected);
      }
      return Ok(file[at]);
    }
  }

  /** Nothing is left of a file behind a tree that fills it. */
  lemma RootInFile<E>(node: NodeHash<E>, b: nat, h: nat, d: nat, leaves: seq<E>, cacheStart: nat,
                      file: seq<E>, was: seq<E>)
    requires Perfect(b, leaves, h) && d < h && cacheStart == CacheStart(b, h, d)
    requires Geo(b, h) == |Flat(node, b, leaves, h)| <= |was|
    requires file == Flat(node, b, leaves, h)[cacheStart..] + was[Geo(b, h)..]
    ensures Geo(b, h - 1 - d) == Geo(b, h) - cacheStart <= |file| && Geo(b, h - 1 - d) > 0
    ensures file[Geo(b, h) - cacheStart - 1] == TreeHash(node, b, h, leaves)
    ensures |was| == Geo(b, h) ==> file == Flat(node, b, leaves, h)[cacheStart..]
  {
    hide Pow, Geo, Row, Flat;
    RootIsTreeHash(node, b, leaves, h);
  }

  lemma TallEnough(b: nat, h: nat)
    requires b >= 2
    ensures h > 0 ==> Pow(b, h) >= b && Geo(b, h) > Geo(b, h - 1)
    ensures h == 0 ==> Pow(b, h) == 1
  {
    PowSmall(b);
    if h > 0 { PowMonotone(b, 1, h); }
  }

  /** The store of a tree that is ready to build has room for it, and admits every read. */
  lemma ReadyFits(b: nat, h: nat, d: nat, dataWidth: nat, cacheIndexStart: nat)
    requires b >= 2 && d < h && dataWidth == Pow(b, h)
    ensures RowsFit(b, h, d, Geo(b, h), dataWidth, cacheIndexStart) && RootAdmitted(b, h, d, dataWidth, cacheIndexStart)
  {
    hide Pow, Geo, RowAdmitted;
    CacheSpan(b, h, d);
    forall l: nat | l < h
      ensures RowReadable(b, h, d, l, dataWidth, cacheIndexStart)
    {
      RowPlaces(b, h, d, l);
      NarrowRowAdmitted(if l == 0 then Pow(b, h) else RowBase(b, h, l), dataWidth, cacheIndexStart,
                        ReadStart(l, RowBase(b, h, l), CacheStart(b, h, d)), Pow(b, h - l));
    }
  }

  lemma StartsReady<E>(b: nat, h: nat, d: nat, cacheStart: nat, leafs: nat, file: seq<E>)
    requires b >= 2 && d < h && leafs == Pow(b, h) <= |file| && cacheStart == Geo(b, h) - Geo(b, h - 1 - d)
    ensures Starting(b, h, d, cacheStart, leafs, file[..leafs], file)
  {}

  lemma TooShort(b: nat, h: nat, d: nat, leafs: nat, size: nat, dataWidth: nat, cacheIndexStart: nat)
    requires b >= 2 && d < h && leafs == Pow(b, h) > size
    ensures !RowsFit(b, h, d, size, dataWidth, cacheIndexStart)
  {}

  lemma ReadyIsEven(b: nat, leafs: nat)
    ensures b >= 2 && IsPow2(b) && leafs == Pow(b, Levels(leafs, b)) && 0 < Levels(leafs, b) ==> leafs % 2 == 0
  {
    if b >= 2 && IsPow2(b) && leafs == Pow(b, Levels(leafs, b)) && 0 < Levels(leafs, b) {
      var h := Levels(leafs, b);
      PowerIsPow2(b, h);
      PowSmall(2);
      PowSmall(b);
      assert IsPow2(2);
      PowMonotone(b, 1, h);
      Pow2Divides(2, leafs);
    }
  }

  // ---------- the truncating build loop ----------

  /** Where in the file a turn of the loop reads. */
  ghost function ReadStart(level: nat, index: nat, cacheStart: nat): nat {
    if level == 0 || index < cacheStart then 0 else index - cacheStart
  }

  /** The file after a turn of the loop. */
  ghost function AfterTurn<E>(node: NodeHash<E>, b: nat, level: nat, width: nat, index: nat, cacheStart: nat,
                              file: seq<E>, fill: E): seq<E>
    requires b > 0 && ReadStart(level, index, cacheStart) + width <= |file|
  {
    var after := Hashed(node, b, level, width, ReadStart(level, index, cacheStart), file, fill);
    if index < cacheStart then after[width..] else after
  }

  /** Where row l of a perfect tree starts in the flat array. */
  ghost function RowBase(b: nat, h: nat, l: nat): nat
    requires b >= 1 && l <= h
  {
    GeoMonotone(b, h - l, h);
    Geo(b, h) - Geo(b, h - l)
  }

  /** The build can read row l. */
  ghost predicate RowReadable(b: nat, h: nat, d: nat, l: nat, dataWidth: nat, cacheIndexStart: nat)
    requires b >= 2 && d < h && l < h
  {
    var base := RowBase(b, h, l);
    RowAdmitted(if l == 0 then Pow(b, h) else base, dataWidth, cacheIndexStart,
                ReadStart(l, base, CacheStart(b, h, d)), Pow(b, h - l))
  }

  /** The build has room for the whole tree and can read all its rows but the root. */
  ghost predicate RowsFit(b: nat, h: nat, d: nat, size: nat, dataWidth: nat, cacheIndexStart: nat)
    requires b >= 2 && d < h
  {
    Geo(b, h) <= size && forall l: nat | l < h :: RowReadable(b, h, d, l, dataWidth, cacheIndexStart)
  }

  /** The build can read the root, which it asks for at its place in the cache. */
  ghost predicate RootAdmitted(b: nat, h: nat, d: nat, dataWidth: nat, cacheIndexStart: nat)
    requires b >= 2 && d < h
  {
    var at := Geo(b, h - 1 - d) - 1;
    at <= dataWidth || at >= cacheIndexStart
  }

  /** What a build leaves: the cache, whatever was in the file behind the space of the tree, and the root. */
  ghost predicate CacheBuilt<E>(node: NodeHash<E>, b: nat, leafs: nat, h: nat, d: nat, was: seq<E>,
                                file: seq<E>, len: nat, root: E)
    requires b >= 2 && d < h
  {
    && leafs == Pow(b, h) && len == Geo(b, h) <= |was| && leafs <= |was|
    && root == TreeHash(node, b, h, was[..leafs])
    && var flat, start := Flat(node, b, was[..leafs], h), CacheStart(b, h, d);
       start <= |flat| && file == flat[start..] + was[len..]
  }

  ghost predicate Starting<E>(b: nat, h: nat, d: nat, cacheStart: nat, leafs: nat, leaves: seq<E>, file: seq<E>) {
    && Perfect(b, leaves, h) && d < h && cacheStart == CacheStart(b, h, d)
    && |leaves| == leafs <= |file| && file[..leafs] == leaves
  }

  /** Flat position of the first element of the file when the loop is at flat position `index`. */
  ghost function Cut(b: nat, h: nat, d: nat, index: nat): nat
    requires b >= 2 && d < h
  {
    if index < CacheStart(b, h, d) then index else CacheStart(b, h, d)
  }

  /** The state of the build loop at row `level`: the file starts at that row while rows are still
      to be discarded, and at the first cached row from then on; behind the row is what was there. */
  ghost predicate InLoop<E>(node: NodeHash<E>, b: nat, h: nat, d: nat, leaves: seq<E>,
                            level: nat, width: nat, index: nat, file: seq<E>, len: nat, was: seq<E>)
    requires b >= 2 && d < h
  {
    var cut := Cut(b, h, d, index);
    && |leaves| == Pow(b, h)
    && level <= h && width == Pow(b, h - level) && index == RowBase(b, h, level)
    && cut <= |was| && RowsInFile(node, b, leaves, level, width, index, cut, file, was[cut..])
    && len == (if level == 0 then |leaves| else index)
  }

  /** The numbers of row l: where it starts, where it is read, what is below it and above it. */
  lemma RowPlaces(b: nat, h: nat, d: nat, l: nat)
    requires b >= 2 && d < h && l < h
    ensures var width, next, base, start := Pow(b, h - l), Pow(b, h - l - 1), RowBase(b, h, l), CacheStart(b, h, d);
            && width > 1 && width % b == 0 && width / b == next && RowBase(b, h, 0) == 0
            && base + width == RowBase(b, h, l + 1) && base + width + next <= Geo(b, h)
            && (base < start <==> l <= d) && (l <= d ==> base + width <= start) && (l > d ==> base >= start)
            && (l > 0 ==> base >= Pow(b, h)) && ReadStart(l, base, start) == base - Cut(b, h, d, base)
            && ReadStart(l, base, start) + width <= Pow(b, h)
            && ReadStart(l, base, start) + width <= (if l == 0 then Pow(b, h) else base)
  {
    hide Pow, Geo;
    PowDiv(b, h - l - 1);
    PowStrict(b, 0, h - l);
    PowSmall(b);
    GeoTop(b, h);
    GeoTop(b, h - l);
    if l + 1 < h { GeoTop(b, h - l - 1); } else { GeoSmall(b); }
    PowMonotone(b, h - l, h);
    if l > 0 { GeoMonotone(b, h - l, h - 1); }
    if l <= d {
      if l < d { GeoStrict(b, h - 1 - d, h - l - 1); }
      GeoStrict(b, h - 1 - d, h - l);
    } else {
      GeoMonotone(b, h - l, h - 1 - d);
    }
  }

  lemma GeoSmall(b: nat)
    ensures Geo(b, 0) == 1
  {}

  lemma LoopStarts<E>(node: NodeHash<E>, b: nat, h: nat, d: nat, leaves: seq<E>, file: seq<E>)
    requires Perfect(b, leaves, h) && d < h && |leaves| <= |file| && file[..|leaves|] == leaves
    ensures InLoop(node, b, h, d, leaves, 0, |leaves|, 0, file, |leaves|, file)
  {
    hide Pow, Geo;
    RowPlaces(b, h, d, 0);
    RowZero(node, b, leaves);
    FlatZero(node, b, leaves);
    assert leaves[0..] == leaves && file[0..] == file;
  }

  /** The state of the loop in numbers. */
  lemma LoopBounds<E>(node: NodeHash<E>, b: nat, h: nat, d: nat, leaves: seq<E>,
                      level: nat, width: nat, index: nat, file: seq<E>, len: nat, was: seq<E>)
    requires b >= 2 && d < h && InLoop(node, b, h, d, leaves, level, width, index, file, len, was) && width > 1
    ensures level < h && width % b == 0 && width / b == Pow(b, h - level - 1) && index == RowBase(b, h, level)
    ensures width == Pow(b, h - level) && len == if level == 0 then Pow(b, h) else index
    ensures var start := ReadStart(level, index, CacheStart(b, h, d));
            start == index - Cut(b, h, d, index) && start + width <= |file| == |was| - Cut(b, h, d, index)
  {
    hide Pow, Geo, Flat, Row;
    PowSmall(b);
    assert level < h;
    RowPlaces(b, h, d, level);
  }

  /** A turn that fails, on a store whose loop came so far, had no room or a row that cannot be read. */
  lemma TurnFails<E>(node: NodeHash<E>, b: nat, h: nat, d: nat, leaves: seq<E>, level: nat, size: nat,
                     dataWidth: nat, cacheIndexStart: nat)
    requires b >= 2 && d < h && level < h
    requires var base := RowBase(b, h, level);
             || BUILD_CHUNK_NODES % b != 0 || !RowReadable(b, h, d, level, dataWidth, cacheIndexStart)
             || base + Pow(b, h - level) + Pow(b, h - level - 1) > size
    ensures BUILD_CHUNK_NODES % b != 0 || !RowsFit(b, h, d, size, dataWidth, cacheIndexStart)
  {
    hide Pow, Geo, RowReadable;
    RowPlaces(b, h, d, level);
  }

  /** A turn leads to the state of the next row. */
  lemma LoopNext<E>(node: NodeHash<E>, b: nat, h: nat, d: nat, leaves: seq<E>,
                    level: nat, width: nat, next: nat, index: nat, file: seq<E>, len: nat, was: seq<E>, fill: E)
    requires b >= 2 && d < h && InLoop(node, b, h, d, leaves, level, width, index, file, len, was) && width > 1
    requires level < h && next == Pow(b, h - level - 1) && index + width + next <= |was|
    ensures ReadStart(level, index, CacheStart(b, h, d)) + width <= |file|
    ensures InLoop(node, b, h, d, leaves, level + 1, next, index + width,
                   AfterTurn(node, b, level, width, index, CacheStart(b, h, d), file, fill), index + width, was)
  {
    hide Pow, Geo, Row, Flat, HashLayer, Splice, Tiles, RowsInFile, CacheStart;
    var cut := Cut(b, h, d, index);
    LoopBounds(node, b, h, d, leaves, level, width, index, file, len, was);
    RowPlaces(b, h, d, level);
    RowsInside(node, b, leaves, level, width, index, cut, file, was[cut..]);
    FileTurn(node, b, leaves, level, width, index, cut, file, was[cut..], fill);
    var after := Hashed(node, b, level, width, index - cut, file, fill);
    if index < CacheStart(b, h, d) {
      DropFront(node, b, leaves, level + 1, next, index + width, cut, after, was[cut..], width);
      assert was[cut..][width..] == was[cut + width..];
    }
    if level + 1 < h { RowPlaces(b, h, d, level + 1); } else { LastRowKept(b, h, d); }
  }

  /** The root row is kept. */
  lemma LastRowKept(b: nat, h: nat, d: nat)
    requires b >= 2 && d < h
    ensures RowBase(b, h, h) >= CacheStart(b, h, d)
  {
    GeoMonotone(b, 0, h - 1 - d);
  }

  /** Dropping the row in front of the current one moves the cut up to the current row. */
  lemma DropFront<E>(node: NodeHash<E>, b: nat, leaves: seq<E>, l: nat, width: nat, index: nat,
                     cut: nat, file: seq<E>, rest: seq<E>, n: nat)
    requires b > 0 && cut + n <= index && RowsInFile(node, b, leaves, l, width, index, cut, file, rest)
    ensures n <= |file| == |rest|
    ensures RowsInFile(node, b, leaves, l, width, index, cut + n, file[n..], rest[n..])
  {
    hide Flat, Row, Tiles;
    var f := Flat(node, b, leaves, l);
    var end := |f|;
    assert file[n..][..end - cut - n] == file[..end - cut][n..] == f[cut..][n..] == f[cut + n..];
    assert file[n..][end - cut - n..] == file[end - cut..] == rest[end - cut..] == rest[n..][end - cut - n..];
  }

  lemma LoopEnds<E>(node: NodeHash<E>, b: nat, h: nat, d: nat, leaves: seq<E>,
                    level: nat, width: nat, index: nat, file: seq<E>, len: nat, was: seq<E>)
    requires b >= 2 && d < h && InLoop(node, b, h, d, leaves, level, width, index, file, len, was) && width <= 1
    ensures level == h && len + 1 == Geo(b, h) == |Flat(node, b, leaves, h)| <= |was|
    ensures file == Flat(node, b, leaves, h)[CacheStart(b, h, d)..] + was[Geo(b, h)..]
  {
    hide Pow, Geo, Row, Flat;
    var cut := CacheStart(b, h, d);
    if level < h { PowStrict(b, 0, h - level); PowSmall(b); }
    LastRowKept(b, h, d);
    FlatLen(node, b, leaves, h, h);
    GeoSmall(b);
    PowSmall(b);
    var end := |Flat(node, b, leaves, h)|;
    assert file == file[..end - cut] + file[end - cut..];
    assert was[cut..][end - cut..] == was[end..];
  }

  // ---------- reading a level cache ----------

  /** A store opened for a tree of height h with d discarded rows, in one of the two layouts:
      base row and cache in the file (no reader), or cache in the file and base row in the reader. */
  ghost predicate Opened<E>(s: LevelCacheStore<E>, node: NodeHash<E>, b: nat, h: nat, d: nat, leaves: seq<E>)
    reads s
  {
    && Perfect(b, leaves, h) && d < h
    && s.len == |Flat(node, b, leaves, h)| == Geo(b, h)
    && s.dataWidth == |leaves| && s.cacheIndexStart == CacheStart(b, h, d)
    && (match s.reader
        case None => s.file == leaves + Flat(node, b, leaves, h)[CacheStart(b, h, d)..]
        case Some(r) =>
          && s.file == Flat(node, b, leaves, h)[CacheStart(b, h, d)..]
          && r.offset + |leaves| <= |r.source| && r.source[r.offset..r.offset + |leaves|] == leaves)
  }

  /** A store built directly, before it is given a reader: the cache alone in the file. */
  ghost predicate Unread<E>(s: LevelCacheStore<E>, node: NodeHash<E>, b: nat, h: nat, d: nat, leaves: seq<E>)
    reads s
  {
    && Perfect(b, leaves, h) && d < h
    && s.len == |Flat(node, b, leaves, h)| == Geo(b, h)
    && s.dataWidth == |leaves| && s.cacheIndexStart == CacheStart(b, h, d)
    && s.reader.None? && s.file == Flat(node, b, leaves, h)[CacheStart(b, h, d)..]
  }

  /** Such a store reads as if it had the other layout: indices below the size of the cache are answered
      with cached nodes, all others are refused, the root among them. */
  lemma UnreadReads<E>(s: LevelCacheStore<E>, node: NodeHash<E>, b: nat, h: nat, d: nat, leaves: seq<E>, i: nat)
    requires Unread(s, node, b, h, d, leaves)
    ensures |s.file| == Geo(b, h - 1 - d) < s.len
    ensures s.ReadAt(i) == if i < |s.file| then Ok(Flat(node, b, leaves, h)[CacheStart(b, h, d) + i]) else Err(Rejected)
  {}

  /** Every leaf reads back, from the file or through the reader. */
  lemma CacheReadsLeaf<E>(s: LevelCacheStore<E>, node: NodeHash<E>, b: nat, h: nat, d: nat, leaves: seq<E>, i: nat)
    requires Opened(s, node, b, h, d, leaves) && i < |leaves|
    ensures i < |Flat(node, b, leaves, h)| && Flat(node, b, leaves, h)[i] == leaves[i]
    ensures s.ReadAt(i) == Ok(leaves[i])
  {
    FlatPrefix(node, b, leaves, 0, h);
    if s.reader.Some? {
      var r := s.reader.value;
      assert r.source[i + r.offset] == r.source[r.offset..r.offset + |leaves|][i];
    }
  }

  /** Every cached node reads back, in both layouts. */
  lemma CacheReadsUpper<E>(s: LevelCacheStore<E>, node: NodeHash<E>, b: nat, h: nat, d: nat, leaves: seq<E>, i: nat)
    requires Opened(s, node, b, h, d, leaves) && CacheStart(b, h, d) <= i < s.len
    ensures s.ReadAt(i) == Ok(Flat(node, b, leaves, h)[i])
  {}

  /** Discarded nodes are refused, except that the guard `start <= data_width` lets the first one
      through: without a reader it answers with the first cached node instead. */
  lemma CacheReadsDiscarded<E>(s: LevelCacheStore<E>, node: NodeHash<E>, b: nat, h: nat, d: nat, leaves: seq<E>, i: nat)
    requires Opened(s, node, b, h, d, leaves) && |leaves| <= i < CacheStart(b, h, d)
    ensures s.ReadAt(i) == if i == |leaves| && s.reader.None?
                           then Ok(Flat(node, b, leaves, h)[CacheStart(b, h, d)])
                           else Err(Rejected)
  {}

  lemma FlatLongEnough<E>(node: NodeHash<E>, b: nat, leaves: seq<E>, h: nat)
    requires b > 0
    ensures |leaves| <= |Flat(node, b, leaves, h)|
  {
    FlatPrefix(node, b, leaves, 0, h);
  }

  /** A range of the base row reads back as the leaves it covers. */
  lemma CacheReadsBase<E>(s: LevelCacheStore<E>, node: NodeHash<E>, b: nat, h: nat, d: nat, leaves: seq<E>,
                          start: nat, end: nat)
    requires Opened(s, node, b, h, d, leaves) && start < end <= |leaves|
    ensures s.ReadRange(start, end) == Ok(leaves[start..end])
  {
    hide Pow, Geo, Flat, CacheStart;
    FlatLongEnough(node, b, leaves, h);
    if s.reader.Some? {
      var r := s.reader.value;
      SliceOfSlice(r.source, r.offset, r.offset + |leaves|, start, end);
    } else {
      assert s.file[start..end] == leaves[start..end];
    }
  }

  /** A range of cached nodes reads back as the part of the tree that it covers, in both layouts. */
  lemma CacheReadsCached<E>(s: LevelCacheStore<E>, node: NodeHash<E>, b: nat, h: nat, d: nat, leaves: seq<E>,
                            start: nat, end: nat)
    requires Opened(s, node, b, h, d, leaves) && CacheStart(b, h, d) <= start < end <= s.len
    ensures s.ReadRange(start, end) == Ok(Flat(node, b, leaves, h)[start..end])
  {
    hide Pow, Geo, Flat, CacheStart;
    var flat, first := Flat(node, b, leaves, h), CacheStart(b, h, d);
    CacheSpan(b, h, d);
    SliceOfSlice(flat, first, |flat|, start - first, end - first);
    assert flat[first..|flat|] == flat[first..];
    if s.reader.None? {
      assert s.file[start - first + |leaves|..end - first + |leaves|] == flat[first..][start - first..end - first];
    }
  }

  /** Nothing is read from the end of the tree on, not even an empty range. */
  lemma CacheReadsInside<E>(s: LevelCacheStore<E>, start: nat, end: nat)
    requires start <= end && (start >= s.len || end > s.len)
    ensures s.ReadRange(start, end) == Err(Rejected)
  {}

  /** All other ranges start below the cache and end behind the base row. Without a reader one that starts in
      the base row or right behind it runs over into the cached nodes, as far as the file goes; with one, a
      start in the base row gives what the source of the reader holds there. The rest is refused. */
  lemma CacheReadsAcross<E>(s: LevelCacheStore<E>, node: NodeHash<E>, b: nat, h: nat, d: nat, leaves: seq<E>,
                            start: nat, end: nat)
    requires Opened(s, node, b, h, d, leaves) && start < CacheStart(b, h, d) && |leaves| < end && start < end
    ensures s.ReadRange(start, end) ==
              if end > s.len then Err(Rejected)
              else match s.reader
                case None =>
                  if start <= |leaves| && end <= |s.file|
                  then Ok((leaves + Flat(node, b, leaves, h)[CacheStart(b, h, d)..])[start..end]) else Err(Rejected)
                case Some(r) =>
                  if start < |leaves| && r.offset + end <= |r.source|
                  then Ok(r.source[r.offset + start..r.offset + end]) else Err(Rejected)
  {
    hide Pow, Geo, Flat;
  }
}
