/** The in-memory store (src/store/vec.rs) with the default build of src/store/mod.rs. */
module VecStores {
  import opened Outcome
  import opened Powers
  import opened Shape
  import opened Rows
  import opened Chunks
  import opened Layers

  class VecStore<E> {
    var items: seq<E>
    const fill: E

    constructor New(fill: E)
      ensures items == [] && this.fill == fill
    {
      items := [];
      this.fill := fill;
    }

    constructor FromSlice(data: seq<E>, fill: E)
      ensures items == data && this.fill == fill
    {
      items := data;
      this.fill := fill;
    }

    method WriteAt(el: E, index: nat)
      modifies this
      ensures items == Splice(old(items), [el], index, fill)
    {
      if |items| <= index {
        items := items + seq(index + 1 - |items|, _ => fill);
      }
      items := items[index := el];
    }

    method CopyFromSlice(buf: seq<E>, start: nat)
      modifies this
      ensures items == Splice(old(items), buf, start, fill)
    {
      if |items| < start + |buf| {
        items := items + seq(start + |buf| - |items|, _ => fill);
      }
      items := items[..start] + buf + items[start + |buf|..];
    }

    /** The write loop of `build_small_tree`. */
    method WriteLayer(layer: seq<E>, writeStart: nat)
      requires writeStart <= |items|
      modifies this
      ensures items == Splice(old(items), layer, writeStart, fill)
    {
      for i := 0 to |layer|
        invariant items == Splice(old(items), layer[..i], writeStart, fill)
      {
        SpliceOneMore(old(items), layer, writeStart, i, fill);
        WriteAt(layer[i], writeStart + i);
      }
      assert layer[..|layer|] == layer;
    }

    /** `build_small_tree`: whole rows at a time, ragged groups included. */
    method BuildSmallTree(node: NodeHash<E>, b: nat, leafs: nat, rowCount: nat) returns (r: Result<E>)
      requires b >= 2 && IsPow2(b) && |items| == leafs
      modifies this
      ensures r.Ok? <==> leafs % 2 == 0 && leafs > 0 && rowCount == Levels(leafs, b) + 1
      ensures items == if leafs % 2 == 0 then Grown(node, b, old(items), Levels(leafs, b)) else old(items)
      ensures r.Ok? ==> |items| > 0 && r.value == items[|items| - 1]
    {
      hide Pow, Quot, HashLayer, Splice, Shr, TrailingZeros, ChunkCount, Grown, GrownStart, WholeRow;
      if leafs % 2 != 0 {
        return Err(Rejected);
      }
      ghost var leaves := items;
      var level: nat, width: nat, levelNodeIndex: nat := 0, leafs, 0;
      GrownFirst(node, b, leaves);
      var shift := TrailingZeros(b);
      while width > 1
        invariant Levels(leafs, b) == level + Levels(width, b)
        invariant items == Grown(node, b, leaves, level) && |items| >= leafs
        invariant levelNodeIndex == GrownStart(node, b, leaves, level) && width == |WholeRow(node, b, leaves, level)|
      {
        GrownRow(node, b, leaves, level);
        var readStart, writeStart := levelNodeIndex, levelNodeIndex + width;
        if level == 0 {
          readStart, writeStart := 0, |items|;
        }
        GrownFirst(node, b, leaves);
        GrownStep(node, b, leaves, level, fill);
        var layer := HashLayer(node, b, items[readStart..readStart + width], level);
        WriteLayer(layer, writeStart);
        ShiftDescends(width, b);
        levelNodeIndex := levelNodeIndex + width;
        level := level + 1;
        width := Shr(width, shift);
      }
      if rowCount != level + 1 {
        return Err(Rejected);
      }
      if |items| == 0 {
        return Err(Panicked);
      }
      return Ok(items[|items| - 1]);
    }

    /** `process_layer`: hash a row chunk by chunk into the next one, threads in any order. */
    method ProcessLayer(node: NodeHash<E>, b: nat, width: nat, level: nat, readStart: nat, writeStart: nat)
      returns (ok: bool)
      requires b >= 2 && readStart + width <= writeStart <= |items|
      modifies this
      ensures ok <==> BUILD_CHUNK_NODES % b == 0 && width % b == 0
      ensures ok ==> items == Splice(old(items),
                                     HashLayer(node, b, old(items)[readStart..readStart + width], level),
                                     writeStart, fill)
    {
      if BUILD_CHUNK_NODES % b != 0 {
        return false;
      }
      var job := Job(node, b, level, width, readStart, writeStart, BUILD_CHUNK_NODES,
                     ChunkCount(width, BUILD_CHUNK_NODES), fill, (s: nat, e: nat) => true);
      ok, items := RunJob(job, items);
      assert width % b == 0 ==> job.Runs(old(items));
    }

    /** The default `Store::build`. Arity 1 makes the loops run forever and is excluded. */
    method Build(node: NodeHash<E>, b: nat, leafs: nat, rowCount: nat) returns (r: Result<E>)
      requires b != 1
      modifies this
      ensures !IsPow2(b) || |old(items)| != leafs || leafs % 2 != 0 ==> r.Err? && items == old(items)
      ensures IsPow2(b) && |old(items)| == leafs && leafs % 2 == 0 ==>
                (r.Ok? <==> && leafs > 0 && rowCount == Levels(leafs, b) + 1
                            && (leafs > 1024 ==> BUILD_CHUNK_NODES % b == 0 && IsPower(b, leafs)))
      ensures r.Ok? ==> rowCount > 0 && items == Grown(node, b, old(items), rowCount - 1)
      ensures r.Ok? ==> |items| > 0 && r.value == items[|items| - 1]
      ensures r.Ok? && IsPower(b, leafs) ==>
                && leafs == Pow(b, rowCount - 1) == |old(items)|
                && items == Flat(node, b, old(items), rowCount - 1)
                && r.value == TreeHash(node, b, rowCount - 1, old(items))
      ensures && IsPow2(b) && BUILD_CHUNK_NODES % b == 0 && |old(items)| == leafs && IsPow2(leafs) && leafs > 1
              && rowCount == RowCount(leafs, b) ==>
                (r.Ok? <==> IsPower(b, leafs))
    {
      hide Pow, Geo, Grown, Row, Flat, TreeHash, RowCount, Levels, DivSum, IsPow2;
      NextPow2Fixed(b);
      PowersBuild(b, leafs);
      if NextPow2(b) != b || |items| != leafs || leafs % 2 != 0 {
        return Err(Rejected);
      }
      if leafs <= SMALL_TREE_BUILD {
        ghost var before := items;
        r := BuildSmallTree(node, b, leafs, rowCount);
        if r.Ok? && IsPower(b, leafs) { PowerTree(node, b, before, rowCount - 1); }
        return;
      }
      ghost var leaves := items;
      PowerHeight(b, leafs);
      FlatZero(node, b, leaves);
      var shift := TrailingZeros(b);
      var level: nat, width: nat, levelNodeIndex: nat := 0, leafs, 0;
      while width > 1
        invariant Tiles(leafs, width, b, level)
        invariant items == Flat(node, b, leaves, level) && levelNodeIndex == Start(node, b, leaves, level)
        invariant level > 0 ==> BUILD_CHUNK_NODES % b == 0
        decreases width
      {
        RowLenExact(node, b, leaves, level, width);
        LayerDone(node, b, leaves, level, fill);
        var readStart, writeStart := levelNodeIndex, levelNodeIndex + width;
        if level == 0 {
          readStart, writeStart := 0, |items|;
        }
        var ok := ProcessLayer(node, b, width, level, readStart, writeStart);
        if !ok {
          if width % b != 0 { RaggedNotPower(leafs, b, level, width); }
          return Err(Rejected);
        }
        ExactStep(leafs, b, level, width);
        ShiftDescends(width, b);
        levelNodeIndex := levelNodeIndex + width;
        level := level + 1;
        width := Shr(width, shift);
      }
      EndsAtRoot(leafs, b, level, width);
      if rowCount != level + 1 {
        return Err(Rejected);
      }
      PowerTree(node, b, leaves, level);
      return Ok(items[|items| - 1]);
    }
  }

  lemma SpliceOneMore<E>(store: seq<E>, layer: seq<E>, start: nat, i: nat, fill: E)
    requires i < |layer| && start <= |store|
    ensures Splice(Splice(store, layer[..i], start, fill), [layer[i]], start + i, fill)
         == Splice(store, layer[..i + 1], start, fill)
  {}

  /** Before the first turn. */
  lemma GrownFirst<E>(node: NodeHash<E>, b: nat, leaves: seq<E>)
    requires b > 0
    ensures Grown(node, b, leaves, 0) == WholeRow(node, b, leaves, 0) == leaves && GrownStart(node, b, leaves, 0) == 0
  {}

  /** What a build leaves of a power of the arity. */
  lemma PowerTree<E>(node: NodeHash<E>, b: nat, leaves: seq<E>, h: nat)
    requires b >= 2 && IsPower(b, |leaves|) && h == Levels(|leaves|, b)
    ensures |leaves| == Pow(b, h)
    ensures var store := Grown(node, b, leaves, h);
            && store == Flat(node, b, leaves, h) && |store| > 0
            && store[|store| - 1] == TreeHash(node, b, h, leaves)
  {
    hide Pow, Geo, Grown, Row, Flat, TreeHash, Levels;
    PowerHeight(b, |leaves|);
    GrownPerfect(node, b, leaves, h, h);
    RootIsTreeHash(node, b, leaves, h);
  }

  /** With the row count that callers compute, the checks of the build pass exactly on powers. */
  lemma PowersBuild(b: nat, leafs: nat)
    ensures b >= 2 && IsPow2(b) && IsPow2(leafs) && leafs > 1 ==>
              leafs % 2 == 0 && (RowCount(leafs, b) == Levels(leafs, b) + 1 <==> IsPower(b, leafs))
  {
    hide Pow, RowCount, Levels, IsPow2;
    if b >= 2 && IsPow2(b) && IsPow2(leafs) && leafs > 1 {
      RowCountMatchesLevels(leafs, b);
      Pow2Even(leafs);
    }
  }
}
