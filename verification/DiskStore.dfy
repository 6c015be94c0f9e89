/** The file-backed store (src/store/disk.rs): memory-mapped layer processing, and compaction
    into the file layout a level cache opens. Files are sequences of elements. */
module DiskStores {
  import opened Outcome
  import opened Powers
  import opened Shape
  import opened Rows
  import opened Chunks
  import opened Layers

  /** `io::copy` on one file opened twice: a reader ahead of (or level with) a writer, block by
      block, until the reader is at the end. Block sizes are arbitrary. */
  method CopyForward<E>(file: seq<E>, from: nat, to: nat) returns (written: nat, after: seq<E>)
    requires to <= from <= |file|
    ensures written == |file| - from
    ensures |after| == |file| && after[..to] == file[..to] && after[to..to + written] == file[from..]
  {
    after := file;
    var reader, writer := from, to;
    while reader < |file|
      invariant from <= reader <= |file| == |after| && writer == to + (reader - from)
      invariant forall i: nat | i < to :: after[i] == file[i]
      invariant forall i: nat | to <= i < writer :: after[i] == file[from + (i - to)]
      invariant forall i: nat | reader <= i < |file| :: after[i] == file[i]
    {
      var n: nat :| 1 <= n <= |file| - reader;
      var block := after[reader..reader + n];
      after := after[..writer] + block + after[writer + n..];
      reader, writer := reader + n, writer + n;
    }
    written := writer - to;
  }

  /** How many chunks the memory-mapped layers work on: read chunks zipped with write chunks. */
  method ZipPairs(width: nat, b: nat) returns (pairs: nat)
    requires b >= 2 && IsPow2(b) && BUILD_CHUNK_NODES % b == 0
    ensures pairs == ChunkCount(width, BUILD_CHUNK_NODES)
  {
    hide ChunkCount, TrailingZeros, Shr;
    ShiftDivides(BUILD_CHUNK_NODES, b);
    ExactDiv(BUILD_CHUNK_NODES, b);
    var writeChunk := Shr(BUILD_CHUNK_NODES, TrailingZeros(b));
    var readers := ChunkCount(width, BUILD_CHUNK_NODES);
    if readers > 0 { ZipLosesNothing(width, BUILD_CHUNK_NODES, b, readers - 1); }
    var writers := ChunkCount(width, writeChunk);
    pairs := if readers <= writers then readers else writers;
  }

  class DiskStore<E> {
    var file: seq<E>
    var len: nat
    var storeSize: nat
    const fill: E

    /** The used part lies inside the file and the cached file size is current. */
    ghost predicate Valid()
      reads this
    {
      len <= |file| == storeSize
    }

    constructor New(size: nat, fill: E)
      ensures Valid() && len == 0 && |file| == size && this.fill == fill
    {
      file := seq(size, _ => fill);
      len := 0;
      storeSize := size;
      this.fill := fill;
    }

    method CopyFromSlice(buf: seq<E>, start: nat) returns (ok: bool)
      requires Valid()
      modifies this`file, this`len
      ensures Valid()
      ensures ok <==> start + |buf| <= storeSize
      ensures ok ==> file == Splice(old(file), buf, start, fill)
      ensures ok ==> len == if old(len) > start + |buf| then old(len) else start + |buf|
      ensures !ok ==> file == old(file) && len == old(len)
    {
      if start + |buf| > storeSize {
        return false;
      }
      file := file[..start] + buf + file[start + |buf|..];
      if len < start + |buf| {
        len := start + |buf|;
      }
      return true;
    }

    function ReadRange(start: nat, end: nat): Result<seq<E>>
      requires Valid() && start <= end
      reads this
    {
      if start >= len || end > len then Err(Rejected) else Ok(file[start..end])
    }

    function ReadAt(index: nat): Result<E>
      requires Valid()
      reads this
    {
      match ReadRange(index, index + 1)
      case Ok(els) => Ok(els[0])
      case Err(why) => Err(why)
    }

    /** The store as its readers see it. */
    function View(): (v: seq<Option<E>>)
      requires Valid()
      reads this
      ensures |v| == len
    {
      seq(len, i requires 0 <= i && Valid() reads this => match ReadAt(i) case Ok(el) => Some(el) case Err(_) => None)
    }

    /** `process_layer` over a memory map of `width` nodes from `writeStart` on. */
    method ProcessLayer(node: NodeHash<E>, b: nat, width: nat, level: nat, readStart: nat, writeStart: nat)
      returns (r: Result<()>)
      requires Valid() && b >= 2 && IsPow2(b)
      requires readStart + width == writeStart <= len
      modifies this`file
      ensures Valid()
      ensures r.Ok? <==> BUILD_CHUNK_NODES % b == 0 && width % b == 0 && writeStart + width / b <= |old(file)|
      ensures r.Ok? ==> file == Hashed(node, b, level, width, readStart, old(file), fill)
    {
      if BUILD_CHUNK_NODES % b != 0 {
        return Err(Rejected);
      }
      if writeStart + width / b > |file| {
        return Err(Panicked);
      }
      var pairs := ZipPairs(width, b);
      var size := len;
      var job := Job(node, b, level, width, readStart, writeStart, BUILD_CHUNK_NODES, pairs, fill,
                     (s: nat, e: nat) => s < size && e <= size);
      if width % b == 0 { ChunksAdmitted(job); }
      var ok, after := RunJob(job, file);
      if !ok {
        return Err(Rejected);
      }
      ChunkCountRounds(width, b);
      file := after;
      return Ok(());
    }

    /** The loop of `build`: one row after the other, the length following. */
    method BuildRows(node: NodeHash<E>, b: nat, leafs: nat) returns (r: Result<nat>)
      requires Valid() && b >= 2 && IsPow2(b) && len == leafs > 1
      modifies this`file, this`len
      ensures Valid() && |file| == |old(file)|
      ensures r.Ok? <==> IsPower(b, leafs) && BUILD_CHUNK_NODES % b == 0 && Geo(b, Levels(leafs, b)) <= |old(file)|
      ensures r.Ok? ==>
                && leafs == Pow(b, r.value) && len == Geo(b, r.value)
                && file[..len] == Flat(node, b, old(file)[..leafs], r.value)
                && file[len..] == old(file)[len..]
    {
      hide Pow, Geo, Flat, Row, RowsInFile, Hashed, Levels, IsPower, IsPow2;
      ghost var leaves := file[..leafs];
      var level: nat, width: nat, levelNodeIndex: nat := 0, leafs, 0;
      RowsBegin(node, b, leaves, file);
      var shift := TrailingZeros(b);
      while width > 1
        invariant Valid() && len == levelNodeIndex + width
        invariant RowsInFile(node, b, leaves, level, width, levelNodeIndex, 0, file, old(file))
        invariant if level == 0 then width == leafs else BUILD_CHUNK_NODES % b == 0
        decreases width
      {
        var readStart, writeStart := levelNodeIndex, levelNodeIndex + width;
        if level == 0 {
          readStart, writeStart := 0, len;
        }
        ghost var before := file;
        RowsInside(node, b, leaves, level, width, levelNodeIndex, 0, file, old(file));
        var done := ProcessLayer(node, b, width, level, readStart, writeStart);
        if done.Err? {
          LayerFails(node, b, leaves, level, width, levelNodeIndex, before, old(file));
          return Err(done.why);
        }
        FileTurn(node, b, leaves, level, width, levelNodeIndex, 0, before, old(file), fill);
        ShiftDescends(width, b);
        levelNodeIndex := levelNodeIndex + width;
        level := level + 1;
        width := Shr(width, shift);
        len := len + width;
      }
      RowsComplete(node, b, leaves, level, width, levelNodeIndex, 0, file, old(file));
      PowerHeight(b, leafs);
      return Ok(level);
    }

    /** `DiskStore::build`. Arity 1 makes the loop run forever and is excluded. */
    method Build(node: NodeHash<E>, b: nat, leafs: nat, rowCount: nat) returns (r: Result<E>)
      requires Valid() && b != 1
      modifies this`file, this`len
      ensures Valid()
      ensures !IsPow2(b) || old(len) != leafs || leafs % 2 != 0 ==> r.Err? && file == old(file) && len == old(len)
      ensures IsPow2(b) && old(len) == leafs && leafs % 2 == 0 ==>
                (r.Ok? <==> && IsPower(b, leafs) && rowCount == Levels(leafs, b) + 1 && BUILD_CHUNK_NODES % b == 0
                            && Geo(b, Levels(leafs, b)) <= |old(file)|)
      ensures r.Ok? ==>
                && leafs == Pow(b, rowCount - 1) == old(len)
                && len == Geo(b, rowCount - 1)
                && file[..len] == Flat(node, b, old(file)[..leafs], rowCount - 1)
                && file[len..] == old(file)[len..]
                && r.value == TreeHash(node, b, rowCount - 1, old(file)[..leafs])
    {
      NextPow2Fixed(b);
      if NextPow2(b) != b || len != leafs || leafs % 2 != 0 {
        return Err(Rejected);
      }
      PowerHeight(b, leafs);
      if leafs == 0 {
        // No row to build, and `get_merkle_tree_len` rejects the length.
        return Err(Rejected);
      }
      ghost var leaves := file[..leafs];
      var levels := BuildRows(node, b, leafs);
      if levels.Err? {
        return Err(levels.why);
      }
      ghost var h := levels.value;
      LevelsPerfect(b, h);
      DivSumPerfect(b, h);
      CacheOfTree(b, h, 0);
      var treeLen := GetMerkleTreeLen(leafs, b);
      if treeLen != Ok(len) || rowCount != levels.value + 1 {
        return Err(Rejected);
      }
      RootIsTreeHash(node, b, leaves, h);
      assert file[len - 1] == file[..len][len - 1];
      return Ok(file[len - 1]);
    }

    /** `compact`: keep the end of the file, after the base row (version 1) or alone (version 2).
        `h` is the height of the tree that the length is taken for, if any. */
    method Compact(b: nat, rowsToDiscard: nat, v1: bool, ghost h: nat) returns (r: Result<()>)
      requires Valid() && b != 1
      modifies this`file, this`len
      ensures b < 2 || !IsPow2(b) || (forall e: nat :: !TakenFor(b, e, old(len))) ==>
                r.Err? && file == old(file) && len == old(len)
      ensures b >= 2 && IsPow2(b) && TakenFor(b, h, old(len)) ==>
                if rowsToDiscard >= h then r.Err? && file == old(file) && len == old(len)
                else
                  var start, cacheSize := if v1 then Pow(b, h) else 0, Geo(b, h - 1 - rowsToDiscard);
                  && Pow(b, h) <= |old(file)| && cacheSize <= |old(file)|
                  && (r.Ok? <==> start + cacheSize <= |old(file)|)
                  && (r.Ok? ==> && file == old(file)[..start] + old(file)[|old(file)| - cacheSize..]
                                && len == |file|)
    {
      hide Pow, Geo, IsPow2;
      var shape := CacheShape(len, b, rowsToDiscard, h);
      if shape.Err? {
        return Err(Rejected);
      }
      var (leafs, cacheSize) := shape.value;
      if cacheSize >= len || cacheSize == 0 {
        return Err(Rejected);
      }
      var start := if v1 then leafs else 0;
      var cacheStart := storeSize - cacheSize;
      if start > cacheStart {
        // The writer would run ahead of its own reader and never reach the end of the file.
        return Err(Panicked);
      }
      KeepEnd(start, cacheSize);
      return Ok(());
    }

    /** The copy of `compact`: the last `cacheSize` elements of the file go to `start`, and the file ends
        there. The number of elements copied is always the one checked for. */
    method KeepEnd(start: nat, cacheSize: nat)
      requires start + cacheSize <= |file|
      modifies this`file, this`len
      ensures file == old(file)[..start] + old(file)[|old(file)| - cacheSize..] && len == |file|
    {
      var written, after := CopyForward(file, |file| - cacheSize, start);
      assert after[..start + written] == after[..start] + after[start..start + written];
      file := after[..start + written];
      len := start + written;
    }
  }

  /** A file that holds rows 0..l of the tree from flat position `cut` on, followed by whatever was
      in `rest`; row l has `width` nodes and starts at flat position `index`. */
  ghost predicate RowsInFile<E>(node: NodeHash<E>, b: nat, leaves: seq<E>, l: nat, width: nat, index: nat,
                                cut: nat, file: seq<E>, rest: seq<E>)
    requires b > 0
  {
    var end := |Flat(node, b, leaves, l)|;
    && Tiles(|leaves|, width, b, l)
    && index == Start(node, b, leaves, l)
    && cut <= index && end == index + width && end - cut <= |file| == |rest|
    && file[..end - cut] == Flat(node, b, leaves, l)[cut..]
    && file[end - cut..] == rest[end - cut..]
  }

  lemma RowsBegin<E>(node: NodeHash<E>, b: nat, leaves: seq<E>, file: seq<E>)
    requires b > 0 && |leaves| <= |file| && file[..|leaves|] == leaves
    ensures RowsInFile(node, b, leaves, 0, |leaves|, 0, 0, file, file)
  {}

  lemma RowsInside<E>(node: NodeHash<E>, b: nat, leaves: seq<E>, l: nat, width: nat, index: nat,
                      cut: nat, file: seq<E>, rest: seq<E>)
    requires b > 0 && RowsInFile(node, b, leaves, l, width, index, cut, file, rest)
    ensures cut <= index && index + width - cut <= |file| == |rest| && Tiles(|leaves|, width, b, l)
    ensures l == 0 ==> index == 0
  {}

  /** The file after hashing the row of `width` nodes at `at` into the space behind it. */
  ghost function Hashed<E>(node: NodeHash<E>, b: nat, level: nat, width: nat, at: nat, file: seq<E>, fill: E): seq<E>
    requires b > 0 && at + width <= |file|
  {
    Splice(file, HashLayer(node, b, file[at..at + width], level), at + width, fill)
  }

  /** A turn of a build loop: the next row goes right after the last one. */
  lemma FileTurn<E>(node: NodeHash<E>, b: nat, leaves: seq<E>, l: nat, width: nat, index: nat,
                    cut: nat, file: seq<E>, rest: seq<E>, fill: E)
    requires b > 0 && RowsInFile(node, b, leaves, l, width, index, cut, file, rest)
    requires cut <= index && width % b == 0 && index + width - cut + width / b <= |file|
    ensures index - cut + width <= |file|
    ensures RowsInFile(node, b, leaves, l + 1, width / b, index + width, cut,
                       Hashed(node, b, l, width, index - cut, file, fill), rest)
  {
    RowToRead(node, b, leaves, l, width, index, cut, file, rest);
    RowToWrite(node, b, leaves, l, width, index, cut, file, rest, fill);
  }

  /** Row l is where the build loop reads it. */
  lemma RowToRead<E>(node: NodeHash<E>, b: nat, leaves: seq<E>, l: nat, width: nat, index: nat,
                     cut: nat, file: seq<E>, rest: seq<E>)
    requires b > 0 && RowsInFile(node, b, leaves, l, width, index, cut, file, rest)
    ensures index - cut + width <= |file|
    ensures HashLayer(node, b, file[index - cut..index - cut + width], l) == Row(node, b, leaves, l + 1)
  {}

  lemma RowToWrite<E>(node: NodeHash<E>, b: nat, leaves: seq<E>, l: nat, width: nat, index: nat,
                      cut: nat, file: seq<E>, rest: seq<E>, fill: E)
    requires b > 0 && RowsInFile(node, b, leaves, l, width, index, cut, file, rest)
    requires cut <= index && width % b == 0 && index + width - cut + width / b <= |file|
    ensures RowsInFile(node, b, leaves, l + 1, width / b, index + width, cut,
                       Splice(file, Row(node, b, leaves, l + 1), index + width - cut, fill), rest)
  {
    NextRow(node, b, leaves, l, width);
    AppendRow(Flat(node, b, leaves, l), Row(node, b, leaves, l + 1), file, rest, cut, fill);
  }

  lemma NextRow<E>(node: NodeHash<E>, b: nat, leaves: seq<E>, l: nat, width: nat)
    requires b > 0 && Tiles(|leaves|, width, b, l) && width % b == 0
    ensures Tiles(|leaves|, width / b, b, l + 1)
    ensures |Row(node, b, leaves, l)| == width && |Row(node, b, leaves, l + 1)| == width / b
  {
    ExactStep(|leaves|, b, l, width);
    RowLenExact(node, b, leaves, l, width);
    RowLenExact(node, b, leaves, l + 1, width / b);
  }

  lemma AppendRow<E>(f: seq<E>, next: seq<E>, file: seq<E>, rest: seq<E>, cut: nat, fill: E)
    requires cut <= |f| && |f| - cut + |next| <= |file| == |rest|
    requires file[..|f| - cut] == f[cut..] && file[|f| - cut..] == rest[|f| - cut..]
    ensures var after := Splice(file, next, |f| - cut, fill);
            |after| == |file| && after[..|f + next| - cut] == (f + next)[cut..]
            && after[|f + next| - cut..] == rest[|f + next| - cut..]
  {}

  /** The chunks of a row inside the store pass the store's bounds check. */
  lemma ChunksAdmitted<E>(job: Job<E>)
    requires job.Valid()
    ensures forall k: nat | k < job.Threads() ::
              job.rs <= job.From(k) < job.rs + job.width && job.From(k) + job.Size(k) <= job.rs + job.width
  {
    forall k: nat | k < job.Threads()
      ensures job.rs <= job.From(k) < job.rs + job.width && job.From(k) + job.Size(k) <= job.rs + job.width
    {
      ChunkInside(job.width, job.chunk, k);
    }
  }

  /** If the next row does not fit, the tree of a power of the arity does not fit either. */
  lemma FileTooSmall<E>(node: NodeHash<E>, b: nat, leaves: seq<E>, level: nat, width: nat)
    requires b >= 2 && width > 1 && width % b == 0 && Tiles(|leaves|, width, b, level)
    ensures IsPower(b, |leaves|) ==>
              |Flat(node, b, leaves, level)| + width / b <= Geo(b, Levels(|leaves|, b))
  {
    TilesProduct(|leaves|, width, b, level);
    if IsPower(b, |leaves|) {
      var h := Levels(|leaves|, b);
      PowerHeight(b, |leaves|);
      if h <= level {
        PowMonotone(b, h, level);
        MulMono(2, width, Pow(b, level));
      } else {
        RowLenExact(node, b, leaves, level, width);
        RowLen(node, b, leaves, h, level + 1);
        ChunkCountRounds(width, b);
        FlatLen(node, b, leaves, h, level + 1);
      }
    }
  }

  lemma LayerFails<E>(node: NodeHash<E>, b: nat, leaves: seq<E>, l: nat, width: nat, index: nat, file: seq<E>,
                      rest: seq<E>)
    requires b >= 2 && width > 1 && RowsInFile(node, b, leaves, l, width, index, 0, file, rest)
    requires BUILD_CHUNK_NODES % b != 0 || width % b != 0 || index + width + width / b > |file|
    ensures !(IsPower(b, |leaves|) && BUILD_CHUNK_NODES % b == 0 && Geo(b, Levels(|leaves|, b)) <= |file|)
  {
    if width % b != 0 {
      RaggedNotPower(|leaves|, b, l, width);
    } else {
      FileTooSmall(node, b, leaves, l, width);
    }
  }

  /** At the top of the tree: the file holds the whole flat array from `cut` on. */
  lemma RowsComplete<E>(node: NodeHash<E>, b: nat, leaves: seq<E>, l: nat, width: nat, index: nat,
                        cut: nat, file: seq<E>, rest: seq<E>)
    requires b >= 2 && width <= 1 && |leaves| > 0 && RowsInFile(node, b, leaves, l, width, index, cut, file, rest)
    ensures width == 1 && |leaves| == Pow(b, l) && Levels(|leaves|, b) == l
    ensures index + 1 == Geo(b, l) == |Flat(node, b, leaves, l)|
    ensures cut <= index && Geo(b, l) - cut <= |file| && file[..Geo(b, l) - cut] == Flat(node, b, leaves, l)[cut..]
    ensures cut == 0 ==> file[..Geo(b, l)] == Flat(node, b, leaves, l)
    ensures file[Geo(b, l) - cut..] == rest[Geo(b, l) - cut..]
    ensures file[Geo(b, l) - cut - 1] == TreeHash(node, b, l, leaves)
  {
    EndsAtRoot(|leaves|, b, l, width);
    RootIsTreeHash(node, b, leaves, l);
    var f := Flat(node, b, leaves, l);
    assert file[|f| - cut - 1] == file[..|f| - cut][|f| - cut - 1] == f[cut..][|f| - cut - 1];
  }

  /** The end of the file that `compact` keeps is the end of the tree, whatever the file holds behind the
      tree, exactly when there is nothing behind it. In a longer file the cache can come out wrong. */
  lemma KeptEndIsRight<E(!new)>(tree: seq<E>, cacheSize: nat, size: nat, x: E)
    requires 0 < cacheSize <= |tree| <= size && x != tree[|tree| - 1]
    ensures (forall file: seq<E> | |file| == size && file[..|tree|] == tree ::
               file[size - cacheSize..] == tree[|tree| - cacheSize..])
       <==> size == |tree|
  {
    if size > |tree| {
      var file := tree + seq(size - |tree|, _ => x);
      assert |file| == size && file[..|tree|] == tree;
      assert file[size - cacheSize..][cacheSize - 1] == file[size - 1] == x;
      assert tree[|tree| - cacheSize..][cacheSize - 1] == tree[|tree| - 1];
    }
  }

  /** The copy runs into its own writes in one case only: a binary store one short of a valid length,
      in a file of just that length, compacted to version 1 without discarding a row above the base. */
  lemma CopyOverruns(b: nat, h: nat, len: nat, size: nat, d: nat, v1: bool)
    requires b >= 2 && d < h && TakenFor(b, h, len) && len <= size
    ensures (if v1 then Pow(b, h) else 0) + Geo(b, h - 1 - d) > size
       <==> v1 && b == 2 && d == 0 && size == len && len + 1 == Geo(b, h)
  {
    hide Geo, Pow;
    GeoTop(b, h);
    GeoBelowPow(b, h - 1);
    if d > 0 { GeoStrict(b, h - 1 - d, h - 1); }
  }

  lemma GeoTop(b: nat, h: nat)
    requires h > 0
    ensures Geo(b, h) == Pow(b, h) + Geo(b, h - 1) && Geo(b, h - 1) > 0 && (b >= 1 ==> Pow(b, h) >= 1)
  {}
}
