/** Generating base proofs (src/merkle.rs): from a full store, or from a store that lost its lower
    rows with the help of a partial tree rebuilt over one segment of the leaves. A store is given
    by what its `read_at` answers for each index, `None` standing for an error. */
module Generation {
  import opened Outcome
  import opened Powers
  import opened Sequences
  import opened Shape
  import opened Rows
  import opened Proofs
  import opened Paths
  import opened Segments
  import opened VecStores
  import opened LevelCacheStores

  /** Where a proof may read: the store, a partial tree, and the flat positions that decide. */
  datatype Source<E> = Source(store: seq<Option<E>>, partial: seq<E>, dataWidth: nat, cacheStart: nat)
  {
    /** The node read for index k of a row that starts at `base` in the store and at `partialBase`
        in the partial tree, whose own index is smaller by `shift`. */
    function Pick(base: nat, partialBase: nat, shift: nat, k: nat): Option<E> {
      var at := base + k;
      if at < dataWidth || at >= cacheStart then
        if at < |store| then store[at] else None
      else if partialBase + k < shift || partialBase + k - shift >= |partial| then None
      else Some(partial[partialBase + k - shift])
    }
  }

  /** The reads around node j of a row all answer with the nodes of the row. */
  ghost predicate RowPicks<E>(row: seq<E>, b: nat, j: nat, s: Source<E>, base: nat, partialBase: nat, shift: nat)
    requires b >= 2
  {
    && j - Rem(j, b) + b <= |row|
    && forall k: nat | j - Rem(j, b) <= k < j - Rem(j, b) + b :: s.Pick(base, partialBase, shift, k) == Some(row[k])
  }

  /** From row l on, every read of the proof loop answers with the nodes of the tree. */
  ghost predicate Picks<E>(node: NodeHash<E>, b: nat, leaves: seq<E>, h: nat, l: nat, j: nat,
                           s: Source<E>, base: nat, partialBase: nat, segmentWidth: nat, shift: nat)
    requires b >= 2 && l <= h
    decreases h - l
  {
    l == h ||
    (&& RowPicks(Row(node, b, leaves, l), b, j, s, base, partialBase, shift)
     && Picks(node, b, leaves, h, l + 1, Quot(j, b), s, base + |Row(node, b, leaves, l)|, partialBase + segmentWidth,
              Quot(segmentWidth, b), Quot(shift, b)))
  }

  /** The first index of the group around j. */
  function HashIndex(j: nat, b: nat): nat
    requires b > 0
  {
    (j / b) * b
  }

  lemma FirstOfGroup(j: nat, b: nat)
    requires b > 0
    ensures HashIndex(j, b) == j - Rem(j, b)
  {
    QuotRem(j, b);
  }

  // ---------- the proof loop, on any store ----------

  /** The reads of nodes k up to `end` of a row, without node j, if they are all answered. */
  ghost function ReadRow<E>(s: Source<E>, base: nat, partialBase: nat, shift: nat, j: nat, k: nat, end: nat)
    : Option<seq<E>>
    decreases end - k
  {
    if k >= end then Some([])
    else
      var rest := ReadRow(s, base, partialBase, shift, j, k + 1, end);
      if k == j then rest
      else
        var el := s.Pick(base, partialBase, shift, k);
        if el.Some? && rest.Some? then Some([el.value] + rest.value) else None
  }

  /** The siblings of node j. */
  ghost function ReadGroup<E>(s: Source<E>, b: nat, j: nat, base: nat, partialBase: nat, shift: nat): Option<seq<E>>
    requires b >= 2
  {
    ReadRow(s, base, partialBase, shift, j, j - Rem(j, b), j - Rem(j, b) + b)
  }

  ghost function Joined<T>(xs: seq<T>, more: Option<seq<T>>): Option<seq<T>> {
    if more.Some? then Some(xs + more.value) else None
  }

  /** The inner loop: read the siblings of node j. */
  method ReadSiblings<E>(s: Source<E>, b: nat, j: nat, base: nat, partialBase: nat, shift: nat)
    returns (r: Result<seq<E>>)
    requires b >= 2
    ensures match ReadGroup(s, b, j, base, partialBase, shift) case Some(nodes) => r == Ok(nodes) case None => r.Err?
  {
    hide Quot, Rem, HashIndex, Source.Pick;
    FirstOfGroup(j, b);
    var hashIndex := HashIndex(j, b);
    var nodes: seq<E> := [];
    ghost var all := ReadGroup(s, b, j, base, partialBase, shift);
    assert all.Some? ==> [] + all.value == all.value;
    for k := hashIndex to hashIndex + b
      invariant Joined(nodes, ReadRow(s, base, partialBase, shift, j, k, hashIndex + b)) == all
    {
      if k != j {
        var el := s.Pick(base, partialBase, shift, k);
        if el.None? {
          return Err(Rejected);
        }
        ghost var rest := ReadRow(s, base, partialBase, shift, j, k + 1, hashIndex + b);
        assert rest.Some? ==> nodes + ([el.value] + rest.value) == (nodes + [el.value]) + rest.value;
        nodes := nodes + [el.value];
      }
    }
    assert nodes + [] == nodes;
    return Ok(nodes);
  }

  /** What the proof loop collects from a row on: siblings, and positions inside the groups. */
  datatype Trail<E> = Trail(hashes: seq<E>, path: seq<nat>)

  ghost function Walk<E>(s: Source<E>, b: nat, width: nat, j: nat, base: nat, partialBase: nat, segmentWidth: nat,
                         shift: nat)
    : Option<Trail<E>>
    requires b >= 2
    decreases |s.store| - base
  {
    if base + 1 >= |s.store| then Some(Trail([], []))
    else if width == 0 then None
    else
      Onward(ReadGroup(s, b, j, base, partialBase, shift), Rem(j, b),
             Walk(s, b, Quot(width, b), Quot(j, b), base + width, partialBase + segmentWidth, Quot(segmentWidth, b),
                  Quot(shift, b)))
  }

  ghost function Onward<E>(sibs: Option<seq<E>>, position: nat, rest: Option<Trail<E>>): Option<Trail<E>> {
    if sibs.Some? && rest.Some? then Some(Trail(sibs.value + rest.value.hashes, [position] + rest.value.path)) else None
  }

  ghost function After<E>(hashes: seq<E>, path: seq<nat>, rest: Option<Trail<E>>): Option<Trail<E>> {
    if rest.Some? then Some(Trail(hashes + rest.value.hashes, path + rest.value.path)) else None
  }

  lemma AfterOnward<E>(hashes: seq<E>, path: seq<nat>, sibs: seq<E>, position: nat, rest: Option<Trail<E>>)
    ensures After(hashes, path, Onward(Some(sibs), position, rest)) == After(hashes + sibs, path + [position], rest)
  {
    if rest.Some? {
      assert hashes + (sibs + rest.value.hashes) == (hashes + sibs) + rest.value.hashes;
      assert path + ([position] + rest.value.path) == (path + [position]) + rest.value.path;
    }
  }

  /** The proof loop. `gen_proof` runs it on the store alone, `gen_proof_with_partial_tree` on the
      store and a partial tree. */
  method CollectProof<E>(s: Source<E>, leafs: nat, rowCount: nat, root: E, b: nat, i: nat, segmentWidth0: nat,
                         segmentStart: nat)
    returns (r: Result<Proof<E>>)
    requires b >= 2
    ensures var first, walk := s.Pick(0, 0, 0, i), Walk(s, b, leafs, i, 0, 0, segmentWidth0, segmentStart);
            if && i < leafs && IsPow2(leafs) && IsPow2(b) && first.Some? && walk.Some?
               && |walk.value.path| + 1 == rowCount && 2 < |walk.value.hashes| + 2 == ProofLemmaLen(rowCount, b)
            then r == Ok(Proof(None, 0, 0, [first.value] + walk.value.hashes + [root], walk.value.path))
            else r.Err?
    ensures i >= leafs || !IsPow2(leafs) ==> r == Err(Rejected)
  {
    hide Quot, Rem, IsPow2, Shr, TrailingZeros, NextPow2, ReadGroup, After;
    NextPow2Fixed(leafs);
    NextPow2Fixed(b);
    if i >= leafs || leafs != NextPow2(leafs) || b != NextPow2(b) {
      return Err(Rejected);
    }
    var shift := TrailingZeros(b);
    var first := s.Pick(0, 0, 0, i);
    if first.None? {
      return Err(Rejected);
    }
    var hashes, path: seq<nat> := [first.value], [];
    var base: nat, j: nat, width: nat := 0, i, leafs;
    var partialBase: nat, segmentWidth: nat, segmentShift: nat := 0, segmentWidth0, segmentStart;
    ghost var all := Walk(s, b, leafs, i, 0, 0, segmentWidth0, segmentStart);
    while base + 1 < |s.store|
      invariant After(hashes, path, Walk(s, b, width, j, base, partialBase, segmentWidth, segmentShift))
             == After([first.value], [], all)
      decreases |s.store| - base
    {
      if width == 0 {
        // Rows run out before the store does: the loop would spin. No tree is built with such a shape.
        NothingAfter(hashes, path, [first.value], all);
        return Err(Panicked);
      }
      var sibs := ReadSiblings(s, b, j, base, partialBase, segmentShift);
      if sibs.Err? {
        NothingAfter(hashes, path, [first.value], all);
        return Err(sibs.why);
      }
      ShiftQuotients(b, width, j, segmentWidth, segmentShift);
      AfterOnward(hashes, path, sibs.value, Rem(j, b),
                  Walk(s, b, Quot(width, b), Quot(j, b), base + width, partialBase + segmentWidth,
                       Quot(segmentWidth, b), Quot(segmentShift, b)));
      hashes := hashes + sibs.value;
      path := path + [j % b];
      base := base + width;
      width := Shr(width, shift);
      partialBase := partialBase + segmentWidth;
      segmentWidth := Shr(segmentWidth, shift);
      segmentShift := Shr(segmentShift, shift);
      j := Shr(j, shift);
    }
    WholeTrail(hashes, path, [first.value], all);
    hashes := hashes + [root];
    if rowCount == 0 {
      return Err(Panicked);
    }
    if |hashes| != ProofLemmaLen(rowCount, b) || |path| != rowCount - 1 {
      return Err(Rejected);
    }
    r := NewProof(b, 0, 0, None, hashes, path);
  }

  lemma NothingAfter<E>(hashes: seq<E>, path: seq<nat>, item: seq<E>, all: Option<Trail<E>>)
    requires After(hashes, path, None) == After(item, [], all)
    ensures all.None?
  {}

  lemma WholeTrail<E>(hashes: seq<E>, path: seq<nat>, item: seq<E>, all: Option<Trail<E>>)
    requires After(hashes, path, Some(Trail([], []))) == After(item, [], all)
    ensures all.Some? && hashes == item + all.value.hashes && path == all.value.path
  {
    assert hashes + [] == hashes && path + [] == path;
  }

  lemma ShiftQuotients(b: nat, w: nat, j: nat, x: nat, y: nat)
    requires b >= 2 && IsPow2(b)
    ensures Shr(w, TrailingZeros(b)) == Quot(w, b) && Shr(j, TrailingZeros(b)) == Quot(j, b)
    ensures Shr(x, TrailingZeros(b)) == Quot(x, b) && Shr(y, TrailingZeros(b)) == Quot(y, b)
    ensures j % b == Rem(j, b)
  {
    ShiftQuot(w, b);
    ShiftQuot(j, b);
    ShiftQuot(x, b);
    ShiftQuot(y, b);
    QuotRem(j, b);
  }

  // ---------- the proof loop, on the shape of a tree ----------

  lemma {:induction false} ReadRowLen<E>(s: Source<E>, base: nat, partialBase: nat, shift: nat, j: nat, k: nat,
                                         end: nat)
    requires k <= end
    ensures var r := ReadRow(s, base, partialBase, shift, j, k, end);
            r.Some? ==> |r.value| == end - k - (if k <= j < end then 1 else 0)
    decreases end - k
  {
    if k < end { ReadRowLen(s, base, partialBase, shift, j, k + 1, end); }
  }

  /** Where row l ends, and how wide the next one is. */
  lemma RowEnds<E>(node: NodeHash<E>, b: nat, leaves: seq<E>, h: nat, l: nat)
    requires Perfect(b, leaves, h) && l <= h
    ensures Start(node, b, leaves, l) + |Row(node, b, leaves, l)| == Start(node, b, leaves, l + 1)
    ensures Start(node, b, leaves, l) + 1 < Geo(b, h) <==> l < h
    ensures |Row(node, b, leaves, l)| == Pow(b, h - l) > 0
    ensures l < h ==> |Row(node, b, leaves, l + 1)| == Quot(|Row(node, b, leaves, l)|, b)
  {
    FlatLen(node, b, leaves, h, l);
    RowLen(node, b, leaves, h, l);
    if l == h {
      assert Pow(b, 0) == 1;
    } else {
      PowStrict(b, 0, h - l);
      RowLen(node, b, leaves, h, l + 1);
      PowQuot(b, h - l - 1);
    }
  }

  /** The proof loop at row l of a store as long as the tree. */
  ghost function WalkAt<E>(node: NodeHash<E>, b: nat, leaves: seq<E>, s: Source<E>, l: nat, j: nat,
                           partialBase: nat, segmentWidth: nat, shift: nat): Option<Trail<E>>
    requires b >= 2
  {
    Walk(s, b, |Row(node, b, leaves, l)|, j, Start(node, b, leaves, l), partialBase, segmentWidth, shift)
  }

  /** One turn of the loop is one row of the tree. */
  lemma WalkRow<E>(node: NodeHash<E>, b: nat, leaves: seq<E>, h: nat, s: Source<E>, l: nat, j: nat,
                   partialBase: nat, segmentWidth: nat, shift: nat)
    requires Perfect(b, leaves, h) && |s.store| == Geo(b, h) && l <= h
    ensures l == h ==> WalkAt(node, b, leaves, s, l, j, partialBase, segmentWidth, shift) == Some(Trail([], []))
    ensures l < h ==>
              WalkAt(node, b, leaves, s, l, j, partialBase, segmentWidth, shift) ==
              Onward(ReadGroup(s, b, j, Start(node, b, leaves, l), partialBase, shift), Rem(j, b),
                     WalkAt(node, b, leaves, s, l + 1, Quot(j, b), partialBase + segmentWidth, Quot(segmentWidth, b),
                            Quot(shift, b)))
  {
    hide Pow, Geo, Row, Flat, Quot, Rem, ReadGroup;
    RowEnds(node, b, leaves, h, l);
  }

  /** If the loop gets through, it collects b - 1 siblings and one position for every row. */
  lemma {:induction false} WalkLen<E>(node: NodeHash<E>, b: nat, leaves: seq<E>, h: nat, s: Source<E>, l: nat, j: nat,
                                      partialBase: nat, segmentWidth: nat, shift: nat)
    requires Perfect(b, leaves, h) && |s.store| == Geo(b, h) && l <= h
    ensures var walk := WalkAt(node, b, leaves, s, l, j, partialBase, segmentWidth, shift);
            walk.Some? ==> |walk.value.hashes| == Stride(b, h - l) && |walk.value.path| == h - l
    decreases h - l
  {
    hide Pow, Geo, Row, Flat, Quot, Rem, WalkAt;
    WalkRow(node, b, leaves, h, s, l, j, partialBase, segmentWidth, shift);
    if l < h {
      ReadRowLen(s, Start(node, b, leaves, l), partialBase, shift, j, j - Rem(j, b), j - Rem(j, b) + b);
      WalkLen(node, b, leaves, h, s, l + 1, Quot(j, b), partialBase + segmentWidth, Quot(segmentWidth, b),
              Quot(shift, b));
    }
  }

  /** What the loop makes of a leaf: the proof with what it collected, or nothing. */
  ghost function Collected<E>(item: E, walk: Option<Trail<E>>, root: E): Option<Proof<E>> {
    if walk.Some? then Some(Proof(None, 0, 0, [item] + walk.value.hashes + [root], walk.value.path)) else None
  }

  /** On the shape of a tree the length checks always pass. */
  lemma CollectedIsAccepted<E>(node: NodeHash<E>, b: nat, leaves: seq<E>, h: nat, s: Source<E>, i: nat,
                               segmentWidth: nat, shift: nat)
    requires Perfect(b, leaves, h) && IsPow2(b) && h >= 1 && |s.store| == Geo(b, h)
    ensures IsPow2(|leaves|)
    ensures var walk := Walk(s, b, |leaves|, i, 0, 0, segmentWidth, shift);
            walk.Some? ==> |walk.value.path| == h && 2 < |walk.value.hashes| + 2 == ProofLemmaLen(h + 1, b)
  {
    hide Pow, Geo, Row, Flat, Quot, Rem, Walk;
    PowerIsPow2(b, h);
    RowZero(node, b, leaves);
    WalkLen(node, b, leaves, h, s, 0, i, 0, segmentWidth, shift);
    StrideProduct(b, h);
    MulMono(1, h, b - 1);
  }

  lemma {:induction false} ReadRowPicks<E>(s: Source<E>, base: nat, partialBase: nat, shift: nat, j: nat, k: nat,
                                           end: nat, row: seq<E>)
    requires k <= end <= |row|
    requires forall x: nat | k <= x < end :: s.Pick(base, partialBase, shift, x) == Some(row[x])
    ensures ReadRow(s, base, partialBase, shift, j, k, end) == Some(Without(row, j, k, end))
    decreases end - k
  {
    hide Source.Pick, Without;
    if k < end {
      ReadRowPicks(s, base, partialBase, shift, j, k + 1, end, row);
      WithoutFirst(row, j, k, end);
    } else {
      NoneLeft(row, j, k);
    }
  }

  /** If every read answers with the tree, the loop collects what the tree owes. */
  lemma {:induction false} TreeWalk<E>(node: NodeHash<E>, b: nat, leaves: seq<E>, h: nat, l: nat, j: nat, s: Source<E>,
                                       partialBase: nat, segmentWidth: nat, shift: nat)
    requires Perfect(b, leaves, h) && |s.store| == Geo(b, h) && l <= h
    requires Picks(node, b, leaves, h, l, j, s, Start(node, b, leaves, l), partialBase, segmentWidth, shift)
    ensures WalkAt(node, b, leaves, s, l, j, partialBase, segmentWidth, shift)
         == Some(Trail(SiblingsUpTo(node, b, leaves, l, h, j), PathUpTo(b, l, h, j)))
    decreases h - l
  {
    hide Pow, Geo, Row, Flat, Quot, Rem, WalkAt, Source.Pick, ReadRow;
    WalkRow(node, b, leaves, h, s, l, j, partialBase, segmentWidth, shift);
    if l < h {
      var g, base := j - Rem(j, b), Start(node, b, leaves, l);
      ReadRowPicks(s, base, partialBase, shift, j, g, g + b, Row(node, b, leaves, l));
      RowEnds(node, b, leaves, h, l);
      TreeWalk(node, b, leaves, h, l + 1, Quot(j, b), s, partialBase + segmentWidth, Quot(segmentWidth, b),
               Quot(shift, b));
    }
  }

  /** Node k of the row at `base` is to be read from the store, and the store does not answer. */
  ghost predicate Missing<E>(s: Source<E>, base: nat, k: nat) {
    var at := base + k;
    (at < s.dataWidth || at >= s.cacheStart) && (at >= |s.store| || s.store[at].None?)
  }

  lemma {:induction false} ReadRowMisses<E>(s: Source<E>, base: nat, partialBase: nat, shift: nat, j: nat, k: nat,
                                            end: nat, x: nat)
    requires k <= x < end && x != j && Missing(s, base, x)
    ensures ReadRow(s, base, partialBase, shift, j, k, end).None?
    decreases end - k
  {
    if k < x { ReadRowMisses(s, base, partialBase, shift, j, k + 1, end, x); }
  }

  /** Sibling x of node `Up(i, b, miss)` of row `miss` is missing. */
  ghost predicate MissesInRow<E>(node: NodeHash<E>, b: nat, leaves: seq<E>, i: nat, s: Source<E>, miss: nat, x: nat)
    requires b >= 2
  {
    var j := Up(i, b, miss);
    j - Rem(j, b) <= x < j - Rem(j, b) + b && x != j && Missing(s, Start(node, b, leaves, miss), x)
  }

  /** A missing sibling ends the loop without a proof. */
  lemma {:induction false} LostWalk<E>(node: NodeHash<E>, b: nat, leaves: seq<E>, h: nat, i: nat, s: Source<E>,
                                       miss: nat, x: nat,
                                       l: nat, partialBase: nat, segmentWidth: nat, shift: nat)
    requires Perfect(b, leaves, h) && |s.store| == Geo(b, h) && l <= miss < h
    requires MissesInRow(node, b, leaves, i, s, miss, x)
    ensures WalkAt(node, b, leaves, s, l, Up(i, b, l), partialBase, segmentWidth, shift).None?
    decreases miss - l
  {
    hide Pow, Geo, Row, Flat, Quot, Rem, WalkAt, Missing, ReadRow;
    var j := Up(i, b, l);
    WalkRow(node, b, leaves, h, s, l, j, partialBase, segmentWidth, shift);
    if l < miss {
      LostWalk(node, b, leaves, h, i, s, miss, x, l + 1, partialBase + segmentWidth, Quot(segmentWidth, b),
               Quot(shift, b));
    } else {
      ReadRowMisses(s, Start(node, b, leaves, l), partialBase, shift, j, j - Rem(j, b), j - Rem(j, b) + b, x);
    }
  }

  // ---------- full stores ----------

  /** The store answers with the flat tree at the leaves and from `lo` on. */
  ghost predicate Holds<E>(node: NodeHash<E>, b: nat, leaves: seq<E>, h: nat, store: seq<Option<E>>, lo: nat)
    requires Perfect(b, leaves, h)
  {
    && |store| == |Flat(node, b, leaves, h)| == Geo(b, h)
    && forall at: nat | at < |store| && (at < |leaves| || at >= lo) :: store[at] == Some(Flat(node, b, leaves, h)[at])
  }

  /** Rows that the store has kept, and that are not taken as discarded, are read from it. */
  lemma {:induction false} FullPicks<E>(node: NodeHash<E>, b: nat, leaves: seq<E>, h: nat, l: nat, j: nat, s: Source<E>,
                                        partialBase: nat, segmentWidth: nat, shift: nat, lo: nat)
    requires Perfect(b, leaves, h) && l <= h && j < Pow(b, h - l)
    requires s.cacheStart <= Start(node, b, leaves, l) && lo <= Start(node, b, leaves, l)
    requires Holds(node, b, leaves, h, s.store, lo)
    ensures Picks(node, b, leaves, h, l, j, s, Start(node, b, leaves, l), partialBase, segmentWidth, shift)
    decreases h - l
  {
    hide Pow, Geo, Quot, Rem, Row, Flat;
    if l < h {
      GroupInRow(node, b, leaves, h, l, j);
      forall k: nat | k < |Row(node, b, leaves, l)|
        ensures s.Pick(Start(node, b, leaves, l), partialBase, shift, k) == Some(Row(node, b, leaves, l)[k])
      {
        FlatAt(node, b, leaves, l, h, k);
      }
      RowEnds(node, b, leaves, h, l);
      FullPicks(node, b, leaves, h, l + 1, Quot(j, b), s, partialBase + segmentWidth, Quot(segmentWidth, b),
                Quot(shift, b), lo);
    }
  }

  // ---------- stores that lost their lower rows ----------

  lemma {:induction false} StartsInOrder<E>(node: NodeHash<E>, b: nat, leaves: seq<E>, h: nat, l: nat, m: nat)
    requires Perfect(b, leaves, h) && l < m <= h
    ensures Start(node, b, leaves, l) + |Row(node, b, leaves, l)| <= Start(node, b, leaves, m)
    decreases m
  {
    hide Row, Flat, Geo, Pow;
    RowEnds(node, b, leaves, h, l);
    if l + 1 < m {
      StartsInOrder(node, b, leaves, h, l, m - 1);
      RowEnds(node, b, leaves, h, m - 1);
    }
  }

  /** The store keeps row m and the rows above it, the partial tree is that of segment q of b^m leaves. */
  ghost predicate Cached<E>(node: NodeHash<E>, b: nat, leaves: seq<E>, h: nat, m: nat, q: nat, s: Source<E>)
    requires Perfect(b, leaves, h)
  {
    && 1 <= m <= h && q < Pow(b, h - m)
    && s.dataWidth == |leaves| && s.cacheStart == Start(node, b, leaves, m)
    && Holds(node, b, leaves, h, s.store, s.cacheStart)
    && s.partial == Flat(node, b, Segment(b, leaves, h, m, q), m)
  }

  /** The proof loop is at node j of row l, below the top of the segment or above it. */
  ghost predicate InSegment<E>(node: NodeHash<E>, b: nat, leaves: seq<E>, h: nat, m: nat, q: nat, l: nat, j: nat,
                               partialBase: nat, segmentWidth: nat, shift: nat)
    requires Perfect(b, leaves, h) && m <= h && q < Pow(b, h - m)
  {
    l <= m ==> && partialBase == Start(node, b, Segment(b, leaves, h, m, q), l)
               && segmentWidth == Pow(b, m - l) && shift == Offset(b, m, q, l)
               && Offset(b, m, q, l) <= j < Offset(b, m, q, l) + Pow(b, m - l)
  }

  /** A node in a kept row, or a leaf, is read from the store. */
  lemma PickFromStore<E>(node: NodeHash<E>, b: nat, leaves: seq<E>, h: nat, m: nat, q: nat, s: Source<E>,
                         l: nat, k: nat, partialBase: nat, shift: nat)
    requires Perfect(b, leaves, h) && Cached(node, b, leaves, h, m, q, s)
    requires (l == 0 || m <= l) && l <= h && k < |Row(node, b, leaves, l)|
    ensures s.Pick(Start(node, b, leaves, l), partialBase, shift, k) == Some(Row(node, b, leaves, l)[k])
  {
    hide Row, Flat, Geo, Pow;
    FlatAt(node, b, leaves, l, h, k);
    if m < l { StartsInOrder(node, b, leaves, h, m, l); }
    if l == 0 { RowZero(node, b, leaves); }
  }

  /** A node of a discarded row is read from the partial tree. */
  lemma PickFromPartial<E>(node: NodeHash<E>, b: nat, leaves: seq<E>, h: nat, m: nat, q: nat, s: Source<E>,
                           l: nat, k: nat, partialBase: nat)
    requires Perfect(b, leaves, h) && Cached(node, b, leaves, h, m, q, s) && 0 < l < m
    requires Offset(b, m, q, l) <= k < Offset(b, m, q, l) + Pow(b, m - l)
    requires partialBase == Start(node, b, Segment(b, leaves, h, m, q), l)
    ensures k < |Row(node, b, leaves, l)|
    ensures s.Pick(Start(node, b, leaves, l), partialBase, Offset(b, m, q, l), k) == Some(Row(node, b, leaves, l)[k])
  {
    hide Row, Flat, Geo, Pow, Offset;
    var seg, off := Segment(b, leaves, h, m, q), Offset(b, m, q, l);
    SegmentRows(node, b, leaves, h, m, q, l);
    RowLen(node, b, seg, m, l);
    FlatAt(node, b, seg, l, m, k - off);
    StartsInOrder(node, b, leaves, h, l, m);
    StartsInOrder(node, b, leaves, h, 0, l);
    RowZero(node, b, leaves);
  }

  lemma CachedRow<E>(node: NodeHash<E>, b: nat, leaves: seq<E>, h: nat, m: nat, q: nat, s: Source<E>,
                     l: nat, j: nat, partialBase: nat, segmentWidth: nat, shift: nat)
    requires Perfect(b, leaves, h) && Cached(node, b, leaves, h, m, q, s) && l < h && j < Pow(b, h - l)
    requires InSegment(node, b, leaves, h, m, q, l, j, partialBase, segmentWidth, shift)
    ensures RowPicks(Row(node, b, leaves, l), b, j, s, Start(node, b, leaves, l), partialBase, shift)
  {
    hide Row, Flat, Geo, Pow, Offset, Quot, Rem, Siblings;
    GroupInRow(node, b, leaves, h, l, j);
    if 0 < l < m {
      OffsetUp(b, m, q, l, j);
      SegmentSiblings(node, b, leaves, h, m, q, l, j);
    }
    forall k: nat | j - Rem(j, b) <= k < j - Rem(j, b) + b
      ensures s.Pick(Start(node, b, leaves, l), partialBase, shift, k) == Some(Row(node, b, leaves, l)[k])
    {
      if 0 < l < m {
        PickFromPartial(node, b, leaves, h, m, q, s, l, k, partialBase);
      } else {
        PickFromStore(node, b, leaves, h, m, q, s, l, k, partialBase, shift);
      }
    }
  }

  lemma SegmentUp<E>(node: NodeHash<E>, b: nat, leaves: seq<E>, h: nat, m: nat, q: nat, l: nat, j: nat,
                     partialBase: nat, segmentWidth: nat, shift: nat)
    requires Perfect(b, leaves, h) && m <= h && q < Pow(b, h - m) && l < h
    requires InSegment(node, b, leaves, h, m, q, l, j, partialBase, segmentWidth, shift)
    ensures InSegment(node, b, leaves, h, m, q, l + 1, Quot(j, b), partialBase + segmentWidth, Quot(segmentWidth, b),
                      Quot(shift, b))
  {
    hide Row, Flat, Geo, Pow, Offset, Quot, Rem;
    if l < m {
      OffsetUp(b, m, q, l, j);
      QuotProduct(Offset(b, m, q, l + 1), b);
      PowQuot(b, m - l - 1);
      RowEnds(node, b, Segment(b, leaves, h, m, q), m, l);
    }
  }

  /** Although the discarded rows are gone, every read of the proof loop answers with the nodes of the tree. */
  lemma {:induction false} CachedPicks<E>(node: NodeHash<E>, b: nat, leaves: seq<E>, h: nat, m: nat, q: nat,
                                          s: Source<E>,
                                          l: nat, j: nat, partialBase: nat, segmentWidth: nat, shift: nat)
    requires Perfect(b, leaves, h) && Cached(node, b, leaves, h, m, q, s) && l <= h && j < Pow(b, h - l)
    requires InSegment(node, b, leaves, h, m, q, l, j, partialBase, segmentWidth, shift)
    ensures Picks(node, b, leaves, h, l, j, s, Start(node, b, leaves, l), partialBase, segmentWidth, shift)
    decreases h - l
  {
    hide Row, Flat, Geo, Pow, Offset, Quot, Rem, RowPicks, InSegment, Cached;
    if l < h {
      CachedRow(node, b, leaves, h, m, q, s, l, j, partialBase, segmentWidth, shift);
      SegmentUpInside(node, b, leaves, h, m, q, s, l, j, partialBase, segmentWidth, shift);
      GroupInRow(node, b, leaves, h, l, j);
      RowEnds(node, b, leaves, h, l);
      CachedPicks(node, b, leaves, h, m, q, s, l + 1, Quot(j, b), partialBase + segmentWidth, Quot(segmentWidth, b),
                  Quot(shift, b));
    }
  }

  lemma SegmentUpInside<E>(node: NodeHash<E>, b: nat, leaves: seq<E>, h: nat, m: nat, q: nat, s: Source<E>, l: nat,
                           j: nat,
                           partialBase: nat, segmentWidth: nat, shift: nat)
    requires Perfect(b, leaves, h) && Cached(node, b, leaves, h, m, q, s) && l < h
    requires InSegment(node, b, leaves, h, m, q, l, j, partialBase, segmentWidth, shift)
    ensures InSegment(node, b, leaves, h, m, q, l + 1, Quot(j, b), partialBase + segmentWidth, Quot(segmentWidth, b),
                      Quot(shift, b))
  {
    hide Row, Flat, Geo, Pow, Offset, Quot, Rem, InSegment;
    SegmentUp(node, b, leaves, h, m, q, l, j, partialBase, segmentWidth, shift);
  }

  /** How many rows `gen_cached_proof` treats as discarded: the request, but never more than the default. */
  function EffectiveDiscard(leafs: nat, b: nat, rows: Option<nat>): nat
    requires leafs >= 1 && b >= 2
  {
    var most := DefaultRowsToDiscard(leafs, b);
    match rows
    case None => most
    case Some(n) => if n < most then n else most
  }

  /** Asked to take `rows` rows as discarded, or not told how many, the code can do without d rows of a
      tree of h + 1 rows: a cached row is left, there are no more than it ever takes as discarded for the
      arity, and no more than asked for. */
  ghost predicate Covers(b: nat, h: nat, rows: Option<nat>, d: nat) {
    && d < h && d <= (if b == 2 then 7 else if b == 4 then 5 else 2)
    && (rows.Some? ==> d <= rows.value)
  }

  /** The most rows that it can do without. */
  ghost function Taken(b: nat, h: nat, rows: Option<nat>): (d: nat)
    requires h >= 1
    ensures d < h && forall kept: nat :: kept <= d <==> Covers(b, h, rows, kept)
  {
    var cap := if b == 2 then 7 else if b == 4 then 5 else 2;
    var most := if h - 1 < cap then h - 1 else cap;
    if rows.Some? && rows.value < most then rows.value else most
  }

  /** That is how many rows it takes as discarded. */
  lemma EffectiveIsTaken(b: nat, h: nat, rows: Option<nat>)
    requires b >= 2 && h >= 1
    ensures EffectiveDiscard(Pow(b, h), b, rows) == Taken(b, h, rows)
  {
    DefaultRowsAre(b, h);
  }

  /** The share of the leaves below one cached leaf. */
  function SegmentWidth(leafs: nat, cachedLeafs: nat): nat
    requires cachedLeafs > 0
  {
    leafs / cachedLeafs
  }

  /** What `gen_cached_proof` works out before it reads anything. */
  datatype Plan = Plan(discard: nat, cacheStart: nat, segmentWidth: nat, partialRows: nat)

  /** The shape checks of `gen_cached_proof`. On a tree of h + 1 rows they all pass, whatever number of
      rows is asked for: the most rows that the request covers are taken as discarded, the segment has
      b^(d+1) leaves and the partial tree over it d + 2 rows. */
  method CachedPlan(leafs: nat, rowCount: nat, b: nat, rows: Option<nat>, ghost h: nat) returns (r: Result<Plan>)
    requires b >= 2
    ensures IsPow2(b) && leafs == Pow(b, h) && h >= 1 && rowCount == h + 1 ==>
              var d := Taken(b, h, rows);
              d < h && r == Ok(Plan(d, CacheStart(b, h, d), Pow(b, d + 1), d + 2))
  {
    hide Pow, Geo, DivSum, Up, RowCount, NextPow2, CacheStart, DefaultRowsToDiscard, SegmentWidth, IsPower, IsPow2,
         IsTreeLen, EffectiveDiscard, Taken;
    ghost var tree := IsPow2(b) && leafs == Pow(b, h) && h >= 1 && rowCount == h + 1;
    if tree { TreeShape(b, h); EffectiveIsTaken(b, h, rows); }
    var total := GetMerkleTreeLen(leafs, b);
    if total.Err? || leafs == 0 {
      return Err(Rejected);
    }
    var d := EffectiveDiscard(leafs, b, rows);
    if tree { CacheOfTree(b, h, d); PlanShape(b, h, d); }
    var cacheSize := GetMerkleTreeCacheSize(leafs, b, d);
    if cacheSize.Err? {
      return Err(Rejected);
    }
    if cacheSize.value >= total.value {
      return Err(Rejected);
    }
    var cached := GetMerkleTreeLeafs(cacheSize.value, b);
    if tree { ShiftOfPow2(b); LeafsOfTree(b, h - 1 - d, cached); }
    if cached.Err? || cached.value == 0 {
      return Err(Rejected);
    }
    NextPow2Fixed(cached.value);
    if cached.value != NextPow2(cached.value) {
      return Err(Rejected);
    }
    var cacheRows := RowCount(cached.value, b);
    if rowCount < cacheRows {
      return Err(Panicked);
    }
    return Ok(Plan(d, total.value - cacheSize.value, SegmentWidth(leafs, cached.value), rowCount - cacheRows + 1));
  }

  lemma TreeShape(b: nat, h: nat)
    requires b >= 2 && h >= 1 && IsPow2(b)
    ensures Pow(b, h) >= b && IsPow2(Pow(b, h)) && DivSum(Pow(b, h), b) == Geo(b, h)
  {
    PowSmall(b);
    PowMonotone(b, 1, h);
    PowerIsPow2(b, h);
    DivSumPerfect(b, h);
  }

  lemma PlanShape(b: nat, h: nat, d: nat)
    requires b >= 2 && d < h && IsPow2(b)
    ensures CacheStart(b, h, d) == Geo(b, h) - Geo(b, h - 1 - d)
    ensures Pow(b, h - 1 - d) > 0 && SegmentWidth(Pow(b, h), Pow(b, h - 1 - d)) == Pow(b, d + 1)
    ensures RowCount(Pow(b, h - 1 - d), b) == h - d
    ensures IsPow2(Pow(b, h - 1 - d))
    ensures IsTreeLen(b, Geo(b, h - 1 - d))
  {
    PowAdd(b, d + 1, h - 1 - d);
    MulDiv(Pow(b, d + 1), Pow(b, h - 1 - d));
    RowCountPerfect(b, h - 1 - d);
    PowerIsPow2(b, h - 1 - d);
  }

  /** What a store answers for the elements of a range, if it answers for all of them. */
  ghost function RangeOf<E>(store: seq<Option<E>>, start: nat, end: nat): Option<seq<E>> {
    if start < |store| && start <= end <= |store| && forall at: nat | start <= at < end :: store[at].Some?
    then Some(seq(end - start, k requires 0 <= k < end - start => store[start + k].value))
    else None
  }

  lemma RangeIs<E>(store: seq<Option<E>>, start: nat, end: nat, els: seq<E>)
    requires start < |store| && start <= end <= |store| && |els| == end - start
    requires forall at: nat | start <= at < end :: store[at] == Some(els[at - start])
    ensures RangeOf(store, start, end) == Some(els)
  {
    assert RangeOf(store, start, end).value == els;
  }

  /** `read_range_into` on a range of the base row. */
  method ReadSegment<E>(store: seq<Option<E>>, start: nat, end: nat) returns (r: Result<seq<E>>)
    ensures match RangeOf(store, start, end) case Some(els) => r == Ok(els) case None => r.Err?
  {
    if start >= |store| || end > |store| || end < start {
      return Err(Rejected);
    }
    var els: seq<E> := [];
    for at := start to end
      invariant |els| == at - start
      invariant forall x: nat | start <= x < at :: store[x] == Some(els[x - start])
    {
      if store[at].None? {
        return Err(Rejected);
      }
      els := els + [store[at].value];
    }
    RangeIs(store, start, end, els);
    return Ok(els);
  }

  /** `build_partial_tree`: exactly over which segments of the leaves a tree with that many rows is built, and the
      tree. With an arity that does not divide the chunk size no segment will do: it is either too short to be a
      tree or too long to be built in one piece. */
  method BuildPartialTree<E>(node: NodeHash<E>, fill: E, b: nat, segment: seq<E>, rowCount: nat, ghost m: nat)
    returns (r: Result<seq<E>>)
    requires b >= 2
    ensures r.Ok? <==> Buildable(|segment|, b) && rowCount == Levels(|segment|, b) + 1
    ensures r.Ok? && Perfect(b, segment, m) ==> r == Ok(Flat(node, b, segment, m)) && rowCount == m + 1
    ensures IsPow2(b) && BUILD_CHUNK_NODES % b == 0 && Perfect(b, segment, m) && m >= 1 && rowCount == m + 1 ==> r.Ok?
    ensures BUILD_CHUNK_NODES % b != 0 ==> r.Err?
  {
    hide Pow, Geo, DivSum, Flat, Row, Levels, TreeHash, IsPow2, IsPower, RowCount;
    BuildableArities(|segment|, b);
    if IsPow2(b) { ChunkArities(b); }
    BuildableShape(|segment|, b);
    PowerHeight(b, |segment|);
    if Buildable(|segment|, b) { Pow2Even(|segment|); FileHoldsTree(|segment|, b); }
    if Perfect(b, segment, m) {
      LevelsPerfect(b, m);
      FlatLen(node, b, segment, m, m);
      if m >= 1 { PowStrict(b, 0, m); PowSmall(b); }
    }
    if IsPower(b, |segment|) { FlatLen(node, b, segment, Levels(|segment|, b), Levels(|segment|, b)); }
    var store := new VecStore<E>.FromSlice(segment, fill);
    var root := store.Build(node, b, |segment|, rowCount);
    if root.Err? {
      return Err(root.why);
    }
    var len := GetMerkleTreeLen(|segment|, b);
    if len != Ok(|store.items|) {
      return Err(Rejected);
    }
    var valid := IsMerkleTreeSizeValid(|segment|, b);
    if !valid {
      return Err(Rejected);
    }
    return Ok(store.items);
  }

  /** A store of the size of the tree that answers for the leaves. */
  ghost predicate LeavesAnswer<E>(b: nat, leaves: seq<E>, h: nat, store: seq<Option<E>>) {
    && Perfect(b, leaves, h) && |leaves| <= |store| == Geo(b, h)
    && forall at: nat | at < |leaves| :: store[at] == Some(leaves[at])
  }

  /** Which segment of b^m leaves holds leaf i. */
  ghost function SegmentIndex(b: nat, m: nat, i: nat): nat
    requires b > 0
  {
    i / Pow(b, m)
  }

  /** Where the cached proof for leaf i reads, when d rows are taken as discarded. */
  ghost function CachedSource<E>(node: NodeHash<E>, b: nat, leaves: seq<E>, h: nat, d: nat, i: nat,
                                 store: seq<Option<E>>): Source<E>
    requires Perfect(b, leaves, h) && d < h && i < |leaves|
  {
    SegmentFits(b, leaves, h, d, i);
    Source(store, Flat(node, b, Segment(b, leaves, h, d + 1, SegmentIndex(b, d + 1, i)), d + 1), |leaves|,
           CacheStart(b, h, d))
  }

  ghost function CachedWalk<E>(node: NodeHash<E>, b: nat, leaves: seq<E>, h: nat, d: nat, i: nat,
                               store: seq<Option<E>>): Option<Trail<E>>
    requires Perfect(b, leaves, h) && d < h && i < |leaves|
  {
    SegmentFits(b, leaves, h, d, i);
    Walk(CachedSource(node, b, leaves, h, d, i, store), b, |leaves|, i, 0, 0, Pow(b, d + 1),
         Offset(b, d + 1, SegmentIndex(b, d + 1, i), 0))
  }

  /** The segment of leaf i: inside the base row, and aligned. */
  lemma SegmentFits<E>(b: nat, leaves: seq<E>, h: nat, d: nat, i: nat)
    requires Perfect(b, leaves, h) && d < h && i < |leaves|
    ensures var w := Pow(b, d + 1);
            var q := SegmentIndex(b, d + 1, i);
            && w > 0 && q < Pow(b, h - (d + 1))
            && HashIndex(i, w) == Offset(b, d + 1, q, 0) <= i < HashIndex(i, w) + w <= |leaves|
            && leaves[HashIndex(i, w)..HashIndex(i, w) + w] == Segment(b, leaves, h, d + 1, q)
  {
    hide Pow;
    var w := Pow(b, d + 1);
    PowAdd(b, h - (d + 1), d + 1);
    GroupFits(i, w, Pow(b, h - (d + 1)));
    TimesProduct(i / w, w);
  }

  /** The segment of leaf i, read from the store. */
  lemma SegmentReads<E>(b: nat, leaves: seq<E>, h: nat, d: nat, i: nat, store: seq<Option<E>>)
    requires LeavesAnswer(b, leaves, h, store) && d < h && i < |leaves|
    ensures var w := Pow(b, d + 1);
            var q := SegmentIndex(b, d + 1, i);
            && w > 0 && q < Pow(b, h - (d + 1)) && HashIndex(i, w) == Offset(b, d + 1, q, 0)
            && |Segment(b, leaves, h, d + 1, q)| == w
            && RangeOf(store, HashIndex(i, w), HashIndex(i, w) + w) == Some(Segment(b, leaves, h, d + 1, q))
  {
    hide SegmentIndex, Pow, Geo, Offset, Segment, RangeOf;
    SegmentFits(b, leaves, h, d, i);
    var w := Pow(b, d + 1);
    RangeIs(store, HashIndex(i, w), HashIndex(i, w) + w, leaves[HashIndex(i, w)..HashIndex(i, w) + w]);
  }

  /** `gen_cached_proof` on a base tree whose store answers for its leaves: the outcome is that of the
      proof loop on the store and the partial tree over the leaf's segment. */
  method GenCachedBaseProof<E>(store: seq<Option<E>>, leafs: nat, rowCount: nat, root: E, b: nat, i: nat,
                               rows: Option<nat>,
                               node: NodeHash<E>, fill: E, ghost h: nat, ghost leaves: seq<E>)
    returns (r: Result<Proof<E>>)
    requires b >= 2
    ensures i >= leafs || !IsPow2(leafs) ==> r == Err(Rejected)
    ensures IsPow2(b) && BUILD_CHUNK_NODES % b != 0 ==> r.Err?
    ensures && IsPow2(b) && BUILD_CHUNK_NODES % b == 0 && h >= 1 && LeavesAnswer(b, leaves, h, store)
            && leafs == |leaves| && i < leafs && rowCount == h + 1 ==>
              var d := Taken(b, h, rows);
              && d < h
              && match Collected(leaves[i], CachedWalk(node, b, leaves, h, d, i, store), root)
                 case Some(proof) => r == Ok(proof)
                 case None => r.Err?
  {
    hide SegmentIndex, Pow, Geo, Flat, Row, Offset, NextPow2, CacheStart, Taken, Segment, Walk,
         Source.Pick, IsPow2, SegmentWidth, RangeOf, HashIndex;
    ghost var good := && IsPow2(b) && BUILD_CHUNK_NODES % b == 0 && h >= 1 && LeavesAnswer(b, leaves, h, store)
                      && leafs == |leaves| && i < leafs && rowCount == h + 1;
    NextPow2Fixed(leafs);
    if good { PowerIsPow2(b, h); }
    if i >= leafs || leafs != NextPow2(leafs) {
      return Err(Rejected);
    }
    var plan := CachedPlan(leafs, rowCount, b, rows, h);
    if plan.Err? {
      return Err(plan.why);
    }
    var Plan(d, cacheStart, segmentWidth, partialRows) := plan.value;
    if segmentWidth == 0 {
      return Err(Panicked);
    }
    var segmentStart := HashIndex(i, segmentWidth);
    if good { SegmentReads(b, leaves, h, d, i, store); }
    var segment := ReadSegment(store, segmentStart, segmentStart + segmentWidth);
    if segment.Err? {
      return Err(segment.why);
    }
    var partial := BuildPartialTree(node, fill, b, segment.value, partialRows, d + 1);
    if partial.Err? {
      return Err(partial.why);
    }
    var s := Source(store, partial.value, leafs, cacheStart);
    if good {
      CollectedIsAccepted(node, b, leaves, h, s, i, segmentWidth, segmentStart);
      PickLeaf(s, leaves, i);
    }
    r := CollectProof(s, leafs, rowCount, root, b, i, segmentWidth, segmentStart);
  }

  lemma PickLeaf<E>(s: Source<E>, leaves: seq<E>, i: nat)
    requires i < |leaves| <= |s.store| && s.store[i] == Some(leaves[i]) && (s.dataWidth == |leaves| || StoreOnly(s))
    ensures s.Pick(0, 0, 0, i) == Some(leaves[i])
  {}

  /** A store that kept the leaves and the rows above the first `kept` ones answers for the leaves. */
  lemma HoldsLeaves<E>(node: NodeHash<E>, b: nat, leaves: seq<E>, h: nat, store: seq<Option<E>>, lo: nat)
    requires Perfect(b, leaves, h) && Holds(node, b, leaves, h, store, lo)
    ensures LeavesAnswer(b, leaves, h, store)
  {
    hide Pow, Geo, Flat, Row;
    FlatPrefix(node, b, leaves, 0, h);
    FlatZero(node, b, leaves);
  }

  /** Main theorem: taking no fewer rows as discarded than the store has lost, the cached proof is the one
      the full tree owes. */
  lemma CachedWalkIsOwed<E>(node: NodeHash<E>, b: nat, leaves: seq<E>, h: nat, d: nat, i: nat, store: seq<Option<E>>,
                            kept: nat)
    requires Perfect(b, leaves, h) && kept <= d < h && i < |leaves|
    requires Holds(node, b, leaves, h, store, CacheStart(b, h, kept))
    ensures Collected(leaves[i], CachedWalk(node, b, leaves, h, d, i, store), TreeHash(node, b, h, leaves))
         == Some(BaseProof(node, b, leaves, h, i))
  {
    hide SegmentIndex, Pow, Geo, Flat, Row, Picks, Offset, Walk, SiblingsUpTo, PathUpTo, TreeHash, Holds, CacheStart;
    var m, q, s := d + 1, SegmentIndex(b, d + 1, i), CachedSource(node, b, leaves, h, d, i, store);
    SegmentFits(b, leaves, h, d, i);
    CachedTree(node, b, leaves, h, d, i, store, kept);
    RowZero(node, b, leaves);
    RowZero(node, b, Segment(b, leaves, h, m, q));
    CachedPicks(node, b, leaves, h, m, q, s, 0, i, 0, Pow(b, m), Offset(b, m, q, 0));
    TreeWalk(node, b, leaves, h, 0, i, s, 0, Pow(b, m), Offset(b, m, q, 0));
  }

  lemma CachedTree<E>(node: NodeHash<E>, b: nat, leaves: seq<E>, h: nat, d: nat, i: nat, store: seq<Option<E>>,
                      kept: nat)
    requires Perfect(b, leaves, h) && kept <= d < h && i < |leaves|
    requires Holds(node, b, leaves, h, store, CacheStart(b, h, kept))
    ensures |store| == Geo(b, h) && SegmentIndex(b, d + 1, i) < Pow(b, h - (d + 1))
    ensures Cached(node, b, leaves, h, d + 1, SegmentIndex(b, d + 1, i), CachedSource(node, b, leaves, h, d, i, store))
  {
    hide SegmentIndex, Pow, Geo, Flat, Row, CacheStart;
    SegmentFits(b, leaves, h, d, i);
    CacheStartsAtRow(node, b, leaves, h, d);
    CacheStartsAtRow(node, b, leaves, h, kept);
    if kept < d { StartsInOrder(node, b, leaves, h, kept + 1, d + 1); }
  }

  /** A sibling lost in a row above those taken as discarded ends the cached proof. */
  lemma CachedWalkFails<E>(node: NodeHash<E>, b: nat, leaves: seq<E>, h: nat, d: nat, i: nat, store: seq<Option<E>>,
                           miss: nat, x: nat)
    requires Perfect(b, leaves, h) && d < miss < h && i < |leaves| && |store| == Geo(b, h)
    requires MissesInRow(node, b, leaves, i, Source(store, [], 0, 0), miss, x)
    ensures CachedWalk(node, b, leaves, h, d, i, store).None?
  {
    hide SegmentIndex, Pow, Geo, Row, Flat, CacheStart, Rem, Walk, Offset;
    var m, q, s := d + 1, SegmentIndex(b, d + 1, i), CachedSource(node, b, leaves, h, d, i, store);
    SegmentFits(b, leaves, h, d, i);
    CacheStartsAtRow(node, b, leaves, h, d);
    if d + 1 < miss { StartsInOrder(node, b, leaves, h, d + 1, miss); }
    RowZero(node, b, leaves);
    assert Up(i, b, 0) == i;
    LostWalk(node, b, leaves, h, i, s, miss, x, 0, 0, Pow(b, m), Offset(b, m, q, 0));
  }

  lemma CacheStartsAtRow<E>(node: NodeHash<E>, b: nat, leaves: seq<E>, h: nat, d: nat)
    requires Perfect(b, leaves, h) && d < h
    ensures CacheStart(b, h, d) == Start(node, b, leaves, d + 1)
  {
    hide Pow, Geo, Row, Flat;
    FlatLen(node, b, leaves, h, d);
  }

  // ---------- proofs without a partial tree ----------

  /** No index is read from the partial tree. */
  ghost predicate StoreOnly<E>(s: Source<E>) {
    s.cacheStart <= s.dataWidth
  }

  lemma {:induction false} SameReads<E>(s: Source<E>, c: Source<E>, base: nat, pb: nat, o: nat, pb': nat, o': nat,
                                        j: nat, k: nat, end: nat)
    requires StoreOnly(s) && StoreOnly(c) && s.store == c.store
    ensures ReadRow(s, base, pb, o, j, k, end) == ReadRow(c, base, pb', o', j, k, end)
    decreases end - k
  {
    if k < end { SameReads(s, c, base, pb, o, pb', o', j, k + 1, end); }
  }

  /** What the loop collects from the store alone does not depend on how the partial tree is addressed. */
  lemma {:induction false} SameWalk<E>(s: Source<E>, c: Source<E>, b: nat, w: nat, j: nat, base: nat,
                                       pb: nat, sw: nat, o: nat, pb': nat, sw': nat, o': nat)
    requires b >= 2 && StoreOnly(s) && StoreOnly(c) && s.store == c.store
    ensures Walk(s, b, w, j, base, pb, sw, o) == Walk(c, b, w, j, base, pb', sw', o')
    decreases |s.store| - base
  {
    hide Quot, Rem, ReadRow, StoreOnly;
    if base + 1 < |s.store| && w > 0 {
      SameReads(s, c, base, pb, o, pb', o', j, j - Rem(j, b), j - Rem(j, b) + b);
      SameWalk(s, c, b, Quot(w, b), Quot(j, b), base + w, pb + sw, Quot(sw, b), Quot(o, b),
               pb' + sw', Quot(sw', b), Quot(o', b));
    }
  }

  /** Taking no row as discarded, a cached walk reads the store alone. */
  lemma StoreWalk<E>(node: NodeHash<E>, b: nat, leaves: seq<E>, h: nat, i: nat, store: seq<Option<E>>)
    requires Perfect(b, leaves, h) && h >= 1 && i < |leaves|
    ensures Walk(Source(store, [], 0, 0), b, |leaves|, i, 0, 0, 0, 0) == CachedWalk(node, b, leaves, h, 0, i, store)
  {
    hide Pow, Flat, Walk, CacheStart, SegmentIndex, Offset, Quot, Rem;
    CacheStartsAtRow(node, b, leaves, h, 0);
    RowZero(node, b, leaves);
    SegmentFits(b, leaves, h, 0, i);
    RowEnds(node, b, leaves, h, 0);
    SameWalk(Source(store, [], 0, 0), CachedSource(node, b, leaves, h, 0, i, store), b, |leaves|, i, 0, 0, 0, 0,
             0, Pow(b, 1), Offset(b, 1, SegmentIndex(b, 1, i), 0));
  }

  /** `gen_proof` on a base tree. Arities below 2 are excluded. On every store that answers for its leaves,
      the outcome is that of a cached proof that takes no row as discarded; if the store lost nothing that is
      the proof owed (`CachedWalkIsOwed`). */
  method GenBaseProof<E>(store: seq<Option<E>>, leafs: nat, rowCount: nat, root: E, b: nat, i: nat,
                         ghost node: NodeHash<E>, ghost h: nat, ghost leaves: seq<E>)
    returns (r: Result<Proof<E>>)
    requires b >= 2
    ensures i >= leafs || !IsPow2(leafs) ==> r == Err(Rejected)
    ensures && IsPow2(b) && h >= 1 && LeavesAnswer(b, leaves, h, store)
            && leafs == |leaves| && i < leafs && rowCount == h + 1 ==>
              match Collected(leaves[i], CachedWalk(node, b, leaves, h, 0, i, store), root)
              case Some(proof) => r == Ok(proof)
              case None => r.Err?
  {
    hide Pow, Geo, Row, Flat, Walk, TreeHash, IsPow2, CachedWalk, Source.Pick;
    var s := Source(store, [], 0, 0);
    if IsPow2(b) && h >= 1 && LeavesAnswer(b, leaves, h, store) && i < |leaves| {
      StoreWalk(node, b, leaves, h, i, store);
      CollectedIsAccepted(node, b, leaves, h, s, i, 0, 0);
      PickLeaf(s, leaves, i);
    }
    r := CollectProof(s, leafs, rowCount, root, b, i, 0, 0);
  }
}
