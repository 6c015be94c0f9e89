/** What the three build loops share: the relation between the loop's width and level and the
    rows already in place. */
module Layers {
  import opened Powers
  import opened Shape
  import opened Rows
  import opened Chunks

  /** n leaves group evenly, l times over, into w nodes. */
  ghost predicate Tiles(n: nat, w: nat, b: nat, l: nat)
    decreases l
  {
    if l == 0 then n == w else Tiles(n, w * b, b, l - 1)
  }

  lemma TilesStart(n: nat, b: nat)
    ensures Tiles(n, n, b, 0)
  {}

  lemma {:induction false} TilesProduct(n: nat, w: nat, b: nat, l: nat)
    ensures Tiles(n, w, b, l) <==> n == w * Pow(b, l)
    decreases l
  {
    if l > 0 {
      TilesProduct(n, w * b, b, l - 1);
      PowStep(b, l - 1);
      MulAssoc(w, b, Pow(b, l - 1));
    }
  }

  /** Leaves that group evenly fix the length of the row. */
  lemma {:induction false} RowLenExact<E>(node: NodeHash<E>, b: nat, leaves: seq<E>, l: nat, w: nat)
    requires b > 0 && Tiles(|leaves|, w, b, l)
    ensures |Row(node, b, leaves, l)| == w
  {
    if l > 0 {
      RowLenExact(node, b, leaves, l - 1, w * b);
      ChunkCountExact(w, b);
    }
  }

  /** Appending the hashes of the last row to rows 0..l gives rows 0..l+1. */
  lemma LayerDone<E>(node: NodeHash<E>, b: nat, leaves: seq<E>, l: nat, fill: E)
    requires b > 0
    ensures var f, row := Flat(node, b, leaves, l), Row(node, b, leaves, l);
            Start(node, b, leaves, l) + |row| == |f|
            && f[Start(node, b, leaves, l)..Start(node, b, leaves, l) + |row|] == row
            && Splice(f, HashLayer(node, b, row, l), |f|, fill) == Flat(node, b, leaves, l + 1)
  {}

  /** One turn of a build loop on a row of whole groups. */
  lemma ExactStep(leafs: nat, b: nat, level: nat, width: nat)
    requires b > 0 && Tiles(leafs, width, b, level) && width % b == 0
    ensures Tiles(leafs, width / b, b, level + 1)
  {
    ExactDiv(width, b);
  }

  /** `width >>= shift` moves one row up. */
  lemma ShiftDescends(width: nat, b: nat)
    requires b >= 2 && IsPow2(b) && width > 0
    ensures Shr(width, TrailingZeros(b)) == width / b == Quot(width, b) < width
  {
    ShiftDivides(width, b);
    QuotRem(width, b);
  }

  /** Reaching width 1 on whole groups means the leaf count is a power of the arity. */
  lemma EndsAtRoot(leafs: nat, b: nat, level: nat, width: nat)
    requires b >= 2 && leafs > 0 && width <= 1 && Tiles(leafs, width, b, level)
    ensures width == 1 && leafs == Pow(b, level) && Levels(leafs, b) == level
  {
    TilesProduct(leafs, width, b, level);
    LevelsPerfect(b, level);
  }

  /** A row that cannot be grouped evenly cannot come from a power of the arity. */
  lemma RaggedNotPower(leafs: nat, b: nat, level: nat, width: nat)
    requires b >= 2 && width > 1 && width % b != 0 && Tiles(leafs, width, b, level)
    ensures !IsPower(b, leafs)
  {
    TilesProduct(leafs, width, b, level);
    if IsPower(b, leafs) {
      var h: nat :| leafs == Pow(b, h);
      if h <= level {
        PowMonotone(b, h, level);
        MulMono(2, width, Pow(b, level));
      } else {
        PowAdd(b, h - level, level);
        SameFactor(width, Pow(b, h - level), Pow(b, level));
        PowDiv(b, h - level - 1);
      }
    }
  }

  lemma SameFactor(x: nat, y: nat, p: nat)
    requires p > 0 && x * p == y * p
    ensures x == y
  {}

  // ---------- rows that do not fill up ----------

  lemma GroupsInside(n: nat, b: nat)
    requires b > 0
    ensures Quot(n, b) <= ChunkCount(n, b) <= Quot(n, b) + 1 && (n > 0 ==> ChunkCount(n, b) >= 1)
  {
    ChunkCountRounds(n, b);
    QuotRem(n, b);
    if 0 < n < b { DivUnique(n, b, 0, n); }
  }

  /** Row l as `build_small_tree` goes on from it: the hashes of the whole groups of the row below. */
  ghost function WholeRow<E>(node: NodeHash<E>, b: nat, leaves: seq<E>, l: nat): seq<E>
    requires b > 0
  {
    if l == 0 then leaves
    else
      var below := WholeRow(node, b, leaves, l - 1);
      GroupsInside(|below|, b);
      HashLayer(node, b, below, l - 1)[..Quot(|below|, b)]
  }

  /** Those rows up to row l, one after the other. */
  ghost function WholeRows<E>(node: NodeHash<E>, b: nat, leaves: seq<E>, l: nat): seq<E>
    requires b > 0
  {
    if l == 0 then leaves else WholeRows(node, b, leaves, l - 1) + WholeRow(node, b, leaves, l)
  }

  /** The store after l turns: the rows below row l, then all the hashes of the last of them, that of
      an incomplete group included. */
  ghost function Grown<E>(node: NodeHash<E>, b: nat, leaves: seq<E>, l: nat): seq<E>
    requires b > 0
  {
    if l == 0 then leaves
    else WholeRows(node, b, leaves, l - 1) + HashLayer(node, b, WholeRow(node, b, leaves, l - 1), l - 1)
  }

  /** Where row l starts in that store. */
  ghost function GrownStart<E>(node: NodeHash<E>, b: nat, leaves: seq<E>, l: nat): nat
    requires b > 0
  {
    if l == 0 then 0 else |WholeRows(node, b, leaves, l - 1)|
  }

  /** Row l is in the store where the loop reads it, with at most one more hash behind it. */
  lemma GrownRow<E>(node: NodeHash<E>, b: nat, leaves: seq<E>, l: nat)
    requires b > 0
    ensures var store, row := Grown(node, b, leaves, l), WholeRow(node, b, leaves, l);
            var start := GrownStart(node, b, leaves, l);
            start + |row| <= |store| <= start + |row| + 1 && store[start..start + |row|] == row
            && (l == 0 ==> start + |row| == |store|) && store[..start + |row|] == WholeRows(node, b, leaves, l)
  {
    hide HashLayer, ChunkCount, Quot;
    if l > 0 {
      var below := WholeRow(node, b, leaves, l - 1);
      GroupsInside(|below|, b);
      PrefixBehind(WholeRows(node, b, leaves, l - 1), HashLayer(node, b, below, l - 1), Quot(|below|, b));
    }
  }

  lemma PrefixBehind<E>(f: seq<E>, s: seq<E>, n: nat)
    requires n <= |s|
    ensures (f + s)[|f|..|f| + n] == s[..n] && (f + s)[..|f| + n] == f + s[..n]
  {}

  /** A turn writes the hashes of the row behind it, over that one more hash. */
  lemma GrownStep<E>(node: NodeHash<E>, b: nat, leaves: seq<E>, l: nat, fill: E)
    requires b > 0 && |WholeRow(node, b, leaves, l)| > 0
    ensures var store, row := Grown(node, b, leaves, l), WholeRow(node, b, leaves, l);
            var start := GrownStart(node, b, leaves, l);
            && Splice(store, HashLayer(node, b, row, l), start + |row|, fill) == Grown(node, b, leaves, l + 1)
            && start + |row| == GrownStart(node, b, leaves, l + 1)
            && |WholeRow(node, b, leaves, l + 1)| == Quot(|row|, b)
  {
    hide HashLayer, ChunkCount, Quot, Splice;
    GrownRow(node, b, leaves, l);
    var store, rows, row := Grown(node, b, leaves, l), WholeRows(node, b, leaves, l), WholeRow(node, b, leaves, l);
    GroupsInside(|row|, b);
    SpliceOver(store, rows, HashLayer(node, b, row, l), fill);
  }

  lemma SpliceOver<E>(store: seq<E>, rows: seq<E>, buf: seq<E>, fill: E)
    requires |rows| <= |store| <= |rows| + 1 && store[..|rows|] == rows && |buf| >= 1
    ensures Splice(store, buf, |rows|, fill) == rows + buf
  {}

  /** On a power of the arity every group is whole, and the store is the flat tree. */
  lemma {:induction false} GrownPerfect<E>(node: NodeHash<E>, b: nat, leaves: seq<E>, h: nat, l: nat)
    requires Perfect(b, leaves, h) && l <= h
    ensures WholeRow(node, b, leaves, l) == Row(node, b, leaves, l)
    ensures WholeRows(node, b, leaves, l) == Flat(node, b, leaves, l) == Grown(node, b, leaves, l)
  {
    hide HashLayer, ChunkCount, Pow;
    RowLen(node, b, leaves, h, l);
    if l > 0 {
      GrownPerfect(node, b, leaves, h, l - 1);
      RowLen(node, b, leaves, h, l - 1);
      PowQuot(b, h - l);
    }
  }

  /** The root of a store whose top row is more than one group is the hash of the last, incomplete
      group alone: with more than b and fewer than 2 * b leaves the first b leaves are not in it. */
  lemma RaggedRoot<E>(node: NodeHash<E>, b: nat, leaves: seq<E>)
    requires 2 <= b < |leaves| < 2 * b
    ensures Levels(|leaves|, b) == 1
    ensures var store := Grown(node, b, leaves, 1); |store| > 0 && store[|store| - 1] == node(leaves[b..], 0)
  {
    var n := |leaves|;
    QuotRem(n, b);
    DivUnique(n, b, 1, n - b);
    DivUnique(n + b - 1, b, 2, n - b - 1);
    assert WholeRow(node, b, leaves, 0) == leaves;
    assert Chunk(leaves, b, 1) == leaves[b..];
  }
}
