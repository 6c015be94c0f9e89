/** Tree shape arithmetic of src/merkle.rs and src/store/mod.rs: how many rows, nodes and
    leafs a flat tree has, and how many of its nodes a level cache keeps. */
module Shape {
  import opened Outcome
  import opened Powers

  const SMALL_TREE_BUILD: nat := 1024
  const BUILD_CHUNK_NODES: nat := 4096
  const BUILD_DATA_BLOCK_SIZE: nat := 262144

  /** n + n/b + n/b^2 + ...: the node count of the rows above and including a row of n nodes. */
  ghost function DivSum(n: nat, b: nat): nat
    requires b >= 2
  {
    if n == 0 then 0 else n + DivSum(Quot(n, b), b)
  }

  ghost predicate IsTreeLen(b: nat, n: nat) {
    exists h: nat :: n == Geo(b, h)
  }

  /** On a perfect tree the sum of the quotients is the geometric sum. */
  lemma {:induction false} DivSumPerfect(b: nat, h: nat)
    requires b >= 2
    ensures DivSum(Pow(b, h), b) == Geo(b, h)
  {
    if h > 0 {
      DivSumPerfect(b, h - 1);
      PowQuot(b, h - 1);
    }
  }

  /** The closed form used for binary trees agrees with the general loop. */
  lemma DivSumBinary(leafs: nat)
    requires IsPow2(leafs)
    ensures DivSum(leafs, 2) == 2 * leafs - 1
  {
    var e: nat :| leafs == Pow(2, e);
    DivSumPerfect(2, e);
    GeoBinary(e);
  }

  /** `get_merkle_tree_len`. */
  method GetMerkleTreeLen(leafs: nat, branches: nat) returns (r: Result<nat>)
    ensures r.Ok? <==> leafs >= branches && IsPow2(branches) && (branches == 2 ==> IsPow2(leafs))
    ensures r.Ok? && branches == 1 ==> r.value == leafs
    ensures r.Ok? && branches >= 2 ==> r.value == DivSum(leafs, branches)
  {
    NextPow2Fixed(leafs);
    NextPow2Fixed(branches);
    if leafs < branches || branches != NextPow2(branches) {
      return Err(Rejected);
    }
    if branches == 2 {
      if leafs != NextPow2(leafs) {
        return Err(Rejected);
      }
      DivSumBinary(leafs);
      return Ok(2 * leafs - 1);
    }
    var shift := TrailingZeros(branches);
    ShiftOfPow2(branches);
    if shift == 0 {
      return Ok(leafs);
    }
    var len: nat, cur: nat := leafs, leafs;
    while cur > 0
      invariant cur <= leafs
      invariant len + DivSum(cur, branches) == DivSum(leafs, branches) + cur
    {
      ShiftQuot(cur, branches);
      cur := Shr(cur, shift);
      if cur >= leafs {
        return Err(Rejected);
      }
      len := len + cur;
    }
    return Ok(len);
  }

  /** The integer part of the base-b logarithm. */
  function FloorLog(b: nat, n: nat): (e: nat)
    requires b >= 2 && n >= 1
    ensures Pow(b, e) <= n < Pow(b, e + 1)
  {
    PowSmall(b);
    if n < b then 0 else
      QuotPositive(n, b);
      var e := FloorLog(b, Quot(n, b));
      LogOneRowUp(b, n, e);
      e + 1
  }

  lemma QuotPositive(n: nat, b: nat)
    requires n >= b > 0
    ensures Quot(n, b) > 0
  {}

  lemma LogOneRowUp(b: nat, n: nat, e: nat)
    requires b >= 2 && n >= b && Pow(b, e) <= Quot(n, b) < Pow(b, e + 1)
    ensures Pow(b, e + 1) <= n < Pow(b, e + 2)
  {
    QuotRem(n, b);
    var low, high := Pow(b, e), Pow(b, e + 1);
    PowStep(b, e);
    PowStep(b, e + 1);
    QuotientBounds(n, b, low, high);
  }

  lemma QuotientBounds(n: nat, b: nat, low: nat, high: nat)
    requires b > 0 && low <= n / b < high
    ensures low * b <= n < high * b
  {
    assert n == (n / b) * b + n % b;
    MulMono(low, n / b, b);
    MulMono(n / b + 1, high, b);
  }

  /** `get_merkle_tree_row_count`, with the floating point logarithm read as exact. */
  function RowCount(leafs: nat, branches: nat): nat
    requires leafs >= 1 && branches >= 2
  {
    if branches == 2 then TrailingZeros(leafs * branches) else FloorLog(branches, leafs * branches)
  }

  lemma RowCountPerfect(b: nat, h: nat)
    requires b >= 2
    ensures RowCount(Pow(b, h), b) == h + 1
  {
    PowStep(b, h);
    if b == 2 {
      TrailingZerosPow2(h + 1);
    } else {
      PowStrict(b, h + 1, h + 2);
      FloorLogUnique(b, Pow(b, h + 1), h + 1);
    }
  }

  lemma FloorLogUnique(b: nat, n: nat, e: nat)
    requires b >= 2 && Pow(b, e) <= n < Pow(b, e + 1)
    ensures n >= 1 && FloorLog(b, n) == e
  {
    var f := FloorLog(b, n);
    if f < e {
      PowMonotone(b, f + 1, e);
    } else if f > e {
      PowMonotone(b, e + 1, f);
    }
  }

  /** How many times the build loops halve (by the arity) a row of w nodes before they stop. */
  function Levels(w: nat, b: nat): nat
    requires b >= 2
  {
    if w <= 1 then 0 else 1 + Levels(Quot(w, b), b)
  }

  lemma {:induction false} LevelsPerfect(b: nat, h: nat)
    requires b >= 2
    ensures Levels(Pow(b, h), b) == h
  {
    if h > 0 {
      LevelsPerfect(b, h - 1);
      PowQuot(b, h - 1);
      PowStrict(b, 0, h);
    }
  }

  /** Whether a multiple of b is a power of b is decided one row up. */
  lemma PowerOneRowUp(b: nat, n: nat)
    requires b >= 2 && n >= b && Rem(n, b) == 0
    ensures IsPower(b, n) <==> IsPower(b, Quot(n, b))
  {
    QuotRem(n, b);
    if IsPower(b, n) {
      var e: nat :| n == Pow(b, e);
      if e > 0 { PowQuot(b, e - 1); }
    }
    if IsPower(b, Quot(n, b)) {
      var e: nat :| Quot(n, b) == Pow(b, e);
      PowStep(b, e);
    }
  }

  lemma NotPowerBetween(b: nat, n: nat)
    requires 1 < n < b
    ensures !IsPower(b, n)
  {}

  lemma {:induction false} LevelsVersusLog(b: nat, n: nat)
    requires b >= 2 && IsPow2(b) && IsPow2(n)
    ensures n >= 1
    ensures FloorLog(b, n) == Levels(n, b) <==> IsPower(b, n)
    ensures FloorLog(b, n) <= Levels(n, b)
    decreases n
  {
    if n < b {
      if n == 1 {
        assert 1 == Pow(b, 0);
      } else {
        NotPowerBetween(b, n);
      }
    } else {
      Pow2Divides(b, n);
      QuotRem(n, b);
      LevelsVersusLog(b, Quot(n, b));
      PowerOneRowUp(b, n);
    }
  }

  /** The row count a caller computes matches the number of rows the build loops produce
      exactly when the leaf count is a power of the arity. */
  lemma RowCountMatchesLevels(leafs: nat, b: nat)
    requires b >= 2 && IsPow2(b) && IsPow2(leafs)
    ensures leafs >= 1
    ensures RowCount(leafs, b) == Levels(leafs, b) + 1 <==> IsPower(b, leafs)
  {
    LevelsVersusLog(b, leafs);
    if b == 2 {
      var e: nat :| leafs == Pow(2, e);
      RowCountPerfect(2, e);
      LevelsPerfect(2, e);
    } else {
      QuotProduct(leafs, b);
      MulMono(1, leafs, b);
      assert FloorLog(b, leafs * b) == 1 + FloorLog(b, leafs);
    }
  }

  /** `is_merkle_tree_size_valid`. Arity 1 makes the loop run forever and is excluded. */
  method IsMerkleTreeSizeValid(leafs: nat, branches: nat) returns (r: bool)
    requires branches != 1
    ensures r <==> branches >= 2 && IsPow2(branches) && IsPower(branches, leafs)
  {
    NextPow2Fixed(leafs);
    NextPow2Fixed(branches);
    forall h: nat | IsPow2(branches) && leafs == Pow(branches, h)
      ensures IsPow2(leafs)
    {
      PowerIsPow2(branches, h);
    }
    if branches == 0 || leafs != NextPow2(leafs) || branches != NextPow2(branches) {
      return false;
    }
    var cur := leafs;
    var shift := TrailingZeros(branches);
    while cur != 1
      invariant 0 < cur <= leafs && IsPow2(cur)
      invariant IsPower(branches, cur) <==> IsPower(branches, leafs)
    {
      ShiftQuot(cur, branches);
      if cur < branches {
        NotPowerBetween(branches, cur);
      } else {
        Pow2Divides(branches, cur);
        QuotRem(cur, branches);
        QuotPositive(cur, branches);
        PowerOneRowUp(branches, cur);
      }
      cur := Shr(cur, shift);
      if cur > leafs || cur == 0 {
        return false;
      }
    }
    assert 1 == Pow(branches, 0);
    return true;
  }

  /** `get_merkle_proof_lemma_len`. */
  function ProofLemmaLen(rowCount: nat, branches: nat): nat
    requires rowCount >= 1 && branches >= 1
  {
    2 + (branches - 1) * (rowCount - 1)
  }

  /** `get_merkle_tree_cache_size`: what is left after dropping the base row and
      `rowsToDiscard` rows above it. */
  method GetMerkleTreeCacheSize(leafs: nat, branches: nat, rowsToDiscard: nat) returns (r: Result<nat>)
    requires branches != 1
    ensures r.Ok? <==>
            branches >= 2 && leafs >= branches && IsPow2(branches) && (branches == 2 ==> IsPow2(leafs))
            && RowCount(leafs, branches) - 1 > rowsToDiscard
    ensures r.Ok? ==> r.value == DivSum(Up(leafs, branches, rowsToDiscard + 1), branches)
  {
    var len := GetMerkleTreeLen(leafs, branches);
    if len.Err? {
      return len;
    }
    var shift := TrailingZeros(branches);
    var rowCount := RowCount(leafs, branches);
    if rowCount - 1 <= rowsToDiscard {
      return Err(Rejected);
    }
    var cacheBase := rowCount - 1 - rowsToDiscard;
    var cacheSize, curLeafs := len.value, leafs;
    ghost var dropped := 0;
    while rowCount > cacheBase
      invariant cacheBase <= rowCount
      invariant dropped + (rowCount - cacheBase) == rowsToDiscard + 1
      invariant curLeafs == Up(leafs, branches, dropped)
      invariant cacheSize == DivSum(curLeafs, branches)
    {
      ShiftQuot(curLeafs, branches);
      cacheSize := cacheSize - curLeafs;
      curLeafs := Shr(curLeafs, shift);
      rowCount := rowCount - 1;
      dropped := dropped + 1;
    }
    return Ok(cacheSize);
  }

  /** On a perfect tree of h + 1 rows the cache is the tree of the top h - d rows. */
  lemma CacheRowsPerfect(b: nat, h: nat, d: nat)
    requires b >= 2 && d < h
    ensures DivSum(Up(Pow(b, h), b, d + 1), b) == Geo(b, h - 1 - d)
  {
    UpPow(b, h, d + 1);
    DivSumPerfect(b, h - 1 - d);
  }

  /** `get_merkle_tree_leafs`: inverts the length. The binary shortcut also accepts a length one
      below a valid one; every other arity accepts exactly the valid lengths. */
  method GetMerkleTreeLeafs(len: nat, branches: nat) returns (r: Result<nat>)
    ensures !IsPow2(branches) ==> r.Err?
    ensures branches != 2 && IsPow2(branches) ==> (r.Ok? <==> IsTreeLen(branches, len))
    ensures branches == 1 && r.Ok? ==> r.value == 1
    ensures branches >= 4 && r.Ok? ==> IsPower(branches, r.value) && DivSum(r.value, branches) == len
    ensures branches == 2 ==> (r.Ok? <==> IsTreeLen(2, len) || IsTreeLen(2, len + 1))
    ensures branches == 2 && r.Ok? ==> IsPow2(r.value) && len <= DivSum(r.value, 2) <= len + 1
    ensures r.Ok? && branches >= 2 && IsTreeLen(branches, len) ==> DivSum(r.value, branches) == len
  {
    NextPow2Fixed(branches);
    if branches != NextPow2(branches) {
      return Err(Rejected);
    }
    if branches == 2 {
      BinaryLeafs(len);
      NextPow2Fixed(Shr(len, 1) + 1);
      var leafs := Shr(len, 1) + 1;
      if leafs != NextPow2(leafs) {
        return Err(Rejected);
      }
      DivSumBinary(leafs);
      return Ok(leafs);
    }
    var leafs: nat, cur: nat := 1, len;
    var shift := TrailingZeros(branches);
    ShiftOfPow2(branches);
    ghost var e := 0;
    while cur != 1
      invariant leafs == Pow(branches, e) && cur <= len && (cur == 0 ==> e == 0) && (branches == 1 ==> leafs == 1)
      invariant len + 1 == cur + Geo(branches, e)
      decreases cur
    {
      leafs := leafs * Pow(2, shift);
      PowStep(branches, e);
      if cur <= leafs {
        NoTreeLenBetween(branches, e, len);
        return Err(Rejected);
      }
      cur := cur - leafs;
      e := e + 1;
      if cur >= len {
        return Err(Rejected);
      }
    }
    PowerIsPow2(branches, e);
    NextPow2Fixed(leafs);
    if leafs != NextPow2(leafs) {
      return Err(Rejected);
    }
    if branches >= 2 { DivSumPerfect(branches, e); }
    return Ok(leafs);
  }

  lemma ShiftOfPow2(b: nat)
    requires IsPow2(b)
    ensures b > 0 && Pow(2, TrailingZeros(b)) == b
    ensures b >= 2 ==> TrailingZeros(b) > 0
    ensures b != 2 && b != 1 ==> b >= 4
  {
    var e: nat :| b == Pow(2, e);
    TrailingZerosPow2(e);
    if e >= 2 { PowMonotone(2, 2, e); }
    PowSmall(2);
    PowStep(2, 1);
  }

  lemma NoTreeLenBetween(b: nat, e: nat, len: nat)
    requires Geo(b, e) < len < Geo(b, e + 1) || len == 0
    ensures b >= 1 ==> !IsTreeLen(b, len)
  {
    forall h: nat | b >= 1
      ensures Geo(b, h) != len
    {
      if h < e { GeoStrict(b, h, e); }
      if h > e + 1 { GeoStrict(b, e + 1, h); }
    }
  }

  /** A power of the arity is the only leaf count with its tree length. */
  lemma LenDeterminesLeafs(b: nat, h: nat, leafs: nat)
    requires b >= 2 && IsPower(b, leafs) && DivSum(leafs, b) == Geo(b, h)
    ensures leafs == Pow(b, h)
  {
    var e: nat :| leafs == Pow(b, e);
    DivSumPerfect(b, e);
    if e < h { GeoStrict(b, e, h); } else if h < e { GeoStrict(b, h, e); }
  }

  lemma BinaryLeafs(len: nat)
    ensures IsPow2(Shr(len, 1) + 1) <==> IsTreeLen(2, len) || IsTreeLen(2, len + 1)
    ensures len <= 2 * Shr(len, 1) + 1 <= len + 1
    ensures IsTreeLen(2, len) ==> len == 2 * Shr(len, 1) + 1
    ensures forall h: nat | len == Geo(2, h) || len + 1 == Geo(2, h) :: Shr(len, 1) + 1 == Pow(2, h)
  {
    PowSmall(2);
    forall h: nat | len == Geo(2, h) || len + 1 == Geo(2, h)
      ensures Shr(len, 1) + 1 == Pow(2, h)
    {
      GeoBinary(h);
    }
    if IsTreeLen(2, len) {
      var h: nat :| len == Geo(2, h);
      GeoBinary(h);
    }
    if IsPow2(Shr(len, 1) + 1) {
      var h: nat :| Shr(len, 1) + 1 == Pow(2, h);
      GeoBinary(h);
      assert len == Geo(2, h) || len + 1 == Geo(2, h);
    }
  }

  /** A concrete length that is no tree length and is accepted by the binary shortcut all the same. */
  lemma BinaryLeafsAcceptsTooMuch()
    ensures IsPow2(Shr(14, 1) + 1) && !IsTreeLen(2, 14)
  {
    PowSmall(2);
    PowStep(2, 1);
    PowStep(2, 2);
    forall h: nat
      ensures Geo(2, h) != 14
    {
      GeoBinary(h);
    }
  }

  /** `StoreConfig::default_rows_to_discard`. */
  function DefaultRowsToDiscard(leafs: nat, branches: nat): (d: nat)
    requires leafs >= 1 && branches >= 2
  {
    var rowCount := RowCount(leafs, branches);
    if rowCount <= 2 then 0
    else if rowCount == 3 then 1
    else
      var most := rowCount - 2;
      var cap := if branches == 2 then 7 else if branches == 4 then 5 else 2;
      if most < cap then most else cap
  }

  /** The default is the most that leaves a cached row, up to a limit that depends on the arity. */
  lemma DefaultRowsAre(b: nat, h: nat)
    requires b >= 2 && h >= 1
    ensures var d := DefaultRowsToDiscard(Pow(b, h), b);
            && d <= h - 1 && (b == 2 ==> d <= 7) && (b == 4 ==> d <= 5) && (b != 2 && b != 4 ==> d <= 2)
            && (d == h - 1 || (b == 2 && d == 7) || (b == 4 && d == 5) || (b != 2 && b != 4 && d == 2))
    ensures DefaultRowsToDiscard(1, b) == 0
  {
    RowCountPerfect(b, h);
    RowCountPerfect(b, 0);
  }

  /** The leaf count computed from the length of a whole tree is the right one. */
  lemma LeafsOfTree(b: nat, h: nat, leafs: Result<nat>)
    requires b >= 2 && IsPow2(b)
    requires IsTreeLen(b, Geo(b, h)) ==> leafs.Ok?
    requires leafs.Ok? ==> IsPower(b, leafs.value)
    requires leafs.Ok? && IsTreeLen(b, Geo(b, h)) ==> DivSum(leafs.value, b) == Geo(b, h)
    ensures leafs == Ok(Pow(b, h))
  {
    ShiftOfPow2(b);
    assert IsTreeLen(b, Geo(b, h));
    LenDeterminesLeafs(b, h, leafs.value);
  }

  /** The cache of a perfect tree starts above the base row and is neither empty nor everything. */
  lemma CacheOfTree(b: nat, h: nat, d: nat)
    requires b >= 2 && IsPow2(b)
    ensures RowCount(Pow(b, h), b) == h + 1
    ensures h >= 1 ==> Pow(b, h) >= b && IsPow2(Pow(b, h))
    ensures d < h ==>
              && DivSum(Up(Pow(b, h), b, d + 1), b) == Geo(b, h - 1 - d)
              && Geo(b, h - 1 - d) + Pow(b, h) <= Geo(b, h)
              && Geo(b, h - 1 - d) < Pow(b, h)
  {
    RowCountPerfect(b, h);
    PowerIsPow2(b, h);
    PowSmall(b);
    if h >= 1 { PowMonotone(b, 1, h); }
    if d < h {
      CacheRowsPerfect(b, h, d);
      if d > 0 { GeoStrict(b, h - 1 - d, h - 1); }
      GeoBelowPow(b, h - 1 - d);
      PowMonotone(b, h - d, h);
    }
  }

  /** A length that is taken for that of a tree of height h: the right one, or for arity 2 one short. */
  ghost predicate TakenFor(b: nat, h: nat, len: nat) {
    len == Geo(b, h) || (b == 2 && len + 1 == Geo(b, h))
  }

  /** The leaf count computed from such a length is that of the tree. */
  lemma LeafsTaken(b: nat, h: nat, len: nat, leafs: Result<nat>)
    requires b >= 2 && IsPow2(b) && TakenFor(b, h, len)
    requires IsTreeLen(b, len) || (b == 2 && IsTreeLen(b, len + 1)) ==> leafs.Ok?
    requires leafs.Ok? ==> IsPower(b, leafs.value) && (b != 2 ==> DivSum(leafs.value, b) == len)
    requires leafs.Ok? && b == 2 ==> len <= DivSum(leafs.value, b) <= len + 1
    ensures leafs == Ok(Pow(b, h))
  {
    hide Geo, DivSum, Pow;
    if b == 2 {
      GeoBinary(h);
      DivSumBinary(leafs.value);
    } else {
      LenDeterminesLeafs(b, h, leafs.value);
    }
  }

  /** A length that is accepted is taken for that of some tree. */
  lemma TakenForSome(b: nat, len: nat)
    requires IsTreeLen(b, len) || (b == 2 && IsTreeLen(b, len + 1))
    ensures exists e: nat :: TakenFor(b, e, len)
  {
    if IsTreeLen(b, len) {
      var e: nat :| len == Geo(b, e);
      assert TakenFor(b, e, len);
    } else {
      var e: nat :| len + 1 == Geo(b, e);
      assert TakenFor(b, e, len);
    }
  }

  /** The leaf count and the cache size of a tree of `len` nodes, as `compact` and the level cache
      constructors compute them. `h` is the height of the tree that the length is taken for, if any. */
  method CacheShape(len: nat, b: nat, d: nat, ghost h: nat) returns (r: Result<(nat, nat)>)
    requires b != 1
    ensures r.Ok? ==> b >= 2 && IsPow2(b) && exists e: nat :: TakenFor(b, e, len)
    ensures b >= 2 && IsPow2(b) && TakenFor(b, h, len) ==>
              && (r.Ok? <==> d < h)
              && (r.Ok? ==> && r.value == (Pow(b, h), Geo(b, h - 1 - d))
                            && Geo(b, h - 1 - d) + Pow(b, h) <= Geo(b, h) <= len + 1
                            && 0 < Geo(b, h - 1 - d) < Pow(b, h))
  {
    hide Geo, DivSum, Pow, RowCount, Up;
    var leafs := GetMerkleTreeLeafs(len, b);
    if b >= 2 && IsPow2(b) {
      ShiftOfPow2(b);
      if TakenFor(b, h, len) { LeafsTaken(b, h, len, leafs); }
    }
    if leafs.Err? {
      return Err(Rejected);
    }
    ShiftOfPow2(b);
    TakenForSome(b, len);
    var cacheSize := GetMerkleTreeCacheSize(leafs.value, b, d);
    CacheOfTree(b, h, d);
    if cacheSize.Err? {
      return Err(Rejected);
    }
    return Ok((leafs.value, cacheSize.value));
  }

  /** The height of a perfect tree, read off its leaf count. */
  lemma PowerHeight(b: nat, leafs: nat)
    requires b >= 2
    ensures IsPower(b, leafs) <==> leafs == Pow(b, Levels(leafs, b))
  {
    if IsPower(b, leafs) {
      var h: nat :| leafs == Pow(b, h);
      LevelsPerfect(b, h);
    }
  }

  // ---------- what the constructors accept ----------

  /** What the constructors from iterators accept: `leafs` is a power of the arity, and large trees
      need an arity that divides the chunk size. */
  ghost predicate Buildable(leafs: nat, b: nat) {
    leafs > 1 && b >= 2 && IsPow2(b) && IsPower(b, leafs) && (leafs > SMALL_TREE_BUILD ==> BUILD_CHUNK_NODES % b == 0)
  }

  /** The powers of two that divide the chunk size are those up to 4096. */
  lemma ChunkArities(b: nat)
    requires IsPow2(b)
    ensures b > 0 && (BUILD_CHUNK_NODES % b == 0 <==> b <= 4096)
  {
    hide Pow;
    ShiftOfPow2(b);
    assert IsPow2(4096) by {
      PowSmall(2);
      assert Pow(2, 4) == 16 && Pow(2, 12) == 4096 by {
        PowAdd(2, 1, 1);
        PowAdd(2, 2, 2);
        PowAdd(2, 4, 4);
        PowAdd(2, 8, 4);
      }
    }
    if b <= 4096 { Pow2Divides(b, 4096); }
  }

  lemma BuildableShape(leafs: nat, b: nat)
    ensures Buildable(leafs, b) ==> IsPow2(leafs) && IsPow2(b) && leafs >= b >= 2
  {
    if Buildable(leafs, b) {
      var h: nat :| leafs == Pow(b, h);
      PowerIsPow2(b, h);
      PowerAtLeast(b, leafs);
    }
  }

  /** The checks of the constructors before a store is made, and its size. */
  method TreeSize(leafs: nat, b: nat) returns (r: Result<nat>)
    requires b != 1
    ensures r.Ok? ==> b >= 2 && IsPow2(b) && IsPow2(leafs) && leafs > 1 && r.value == DivSum(leafs, b) >= leafs
    ensures Buildable(leafs, b) ==> r.Ok?
  {
    hide Pow, DivSum, IsPow2, IsPower, Buildable;
    NextPow2Fixed(leafs);
    NextPow2Fixed(b);
    BuildableShape(leafs, b);
    if leafs <= 1 || NextPow2(leafs) != leafs || NextPow2(b) != b {
      return Err(Rejected);
    }
    r := GetMerkleTreeLen(leafs, b);
    if r.Ok? { SumAtLeast(leafs, b); }
  }

  lemma SumAtLeast(leafs: nat, b: nat)
    requires b >= 2
    ensures DivSum(leafs, b) >= leafs
  {}

  /** What the constructors accept when the tree is built in a file. */
  ghost predicate BuildableInFile(leafs: nat, b: nat) {
    leafs > 1 && b >= 2 && IsPow2(b) && IsPower(b, leafs) && BUILD_CHUNK_NODES % b == 0
  }

  /** In memory and in a file the same trees can be built: those of a power of the arity, the arity a power of
      two up to 4096. (Small trees are spared the check of the chunk size, but none has a wider arity.) */
  lemma BuildableArities(leafs: nat, b: nat)
    ensures Buildable(leafs, b) <==> leafs > 1 && 2 <= b <= 4096 && IsPow2(b) && IsPower(b, leafs)
    ensures BuildableInFile(leafs, b) <==> Buildable(leafs, b)
  {
    hide Pow, IsPow2, IsPower;
    if IsPow2(b) { ChunkArities(b); }
    if leafs > 1 && b >= 2 && IsPow2(b) && IsPower(b, leafs) { PowerAtLeast(b, leafs); }
  }

  lemma PowerAtLeast(b: nat, leafs: nat)
    requires b >= 1 && leafs > 1 && IsPower(b, leafs)
    ensures leafs >= b
  {
    var h: nat :| leafs == Pow(b, h);
    PowSmall(b);
    PowMonotone(b, 1, h);
  }

  lemma FileHoldsTree(leafs: nat, b: nat)
    requires b >= 2
    ensures IsPower(b, leafs) ==> DivSum(leafs, b) == Geo(b, Levels(leafs, b))
  {
    if IsPower(b, leafs) {
      var h: nat :| leafs == Pow(b, h);
      LevelsPerfect(b, h);
      DivSumPerfect(b, h);
    }
  }
}
