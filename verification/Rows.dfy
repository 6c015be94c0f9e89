/** The reference tree. `TreeHash` is the top-down recursive tree hash; `Row` and `Flat` are the
    rows and the flat array (leaf row first, root last) every store is measured against. */
module Rows {
  import opened Powers
  import opened Sequences

  /** `Algorithm::multi_node`: the hash of a list of nodes, told the height it is used at. */
  type NodeHash<!E> = (seq<E>, nat) -> E

  /** True of the default `multi_node`, which does not look at the height. */
  ghost predicate HeightFree<E(!new)>(node: NodeHash<E>) {
    forall ns: seq<E>, i: nat, j: nat :: node(ns, i) == node(ns, j)
  }

  /** How many pieces `slice::chunks(b)` cuts n elements into. */
  function ChunkCount(n: nat, b: nat): nat
    requires b > 0
  {
    (n + b - 1) / b
  }

  lemma ChunkInside(n: nat, b: nat, k: nat)
    requires b > 0 && k < ChunkCount(n, b)
    ensures k * b < n
  {
    var c := ChunkCount(n, b);
    assert n + b - 1 == c * b + (n + b - 1) % b;
    MulMono(k + 1, c, b);
  }

  lemma ChunkCountExact(w: nat, b: nat)
    requires b > 0
    ensures ChunkCount(w * b, b) == w
  {
    DivUnique(w * b + b - 1, b, w, b - 1);
  }

  lemma ChunkCountRounds(n: nat, b: nat)
    requires b > 0
    ensures n / b <= ChunkCount(n, b) <= n / b + 1
    ensures ChunkCount(n, b) == n / b <==> n % b == 0
  {
    var q, r := n / b, n % b;
    assert n == q * b + r;
    if r == 0 {
      DivUnique(n + b - 1, b, q, b - 1);
    } else {
      DivUnique(n + b - 1, b, q + 1, r - 1);
    }
  }

  /** The k-th piece of `row.chunks(b)`; the last one may be shorter. */
  function Chunk<E>(row: seq<E>, b: nat, k: nat): seq<E>
    requires b > 0 && k < ChunkCount(|row|, b)
  {
    ChunkInside(|row|, b, k);
    row[k * b..if k * b + b <= |row| then k * b + b else |row|]
  }

  /** `row.chunks(b).map(multi_node)`. */
  function HashLayer<E>(node: NodeHash<E>, b: nat, row: seq<E>, level: nat): (r: seq<E>)
    requires b > 0
    ensures |r| == ChunkCount(|row|, b)
  {
    seq(ChunkCount(|row|, b), k requires 0 <= k < ChunkCount(|row|, b) => node(Chunk(row, b, k), level))
  }

  /** The row `l` levels above the leaves. */
  function Row<E>(node: NodeHash<E>, b: nat, leaves: seq<E>, l: nat): seq<E>
    requires b > 0
  {
    if l == 0 then leaves else HashLayer(node, b, Row(node, b, leaves, l - 1), l - 1)
  }

  /** Rows 0 to l, one after the other. */
  function Flat<E>(node: NodeHash<E>, b: nat, leaves: seq<E>, l: nat): seq<E>
    requires b > 0
  {
    if l == 0 then leaves else Flat(node, b, leaves, l - 1) + Row(node, b, leaves, l)
  }

  /** Where row l starts in the flat array. */
  ghost function Start<E>(node: NodeHash<E>, b: nat, leaves: seq<E>, l: nat): nat
    requires b > 0
  {
    if l == 0 then 0 else |Flat(node, b, leaves, l - 1)|
  }

  lemma FlatZero<E>(node: NodeHash<E>, b: nat, leaves: seq<E>)
    requires b > 0
    ensures Flat(node, b, leaves, 0) == leaves
  {}

  lemma RowZero<E>(node: NodeHash<E>, b: nat, leaves: seq<E>)
    requires b > 0
    ensures Row(node, b, leaves, 0) == leaves && Start(node, b, leaves, 0) == 0
  {}

  /** A tree of h + 1 rows whose rows all fill up. */
  ghost predicate Perfect<E>(b: nat, leaves: seq<E>, h: nat) {
    b >= 2 && |leaves| == Pow(b, h)
  }

  lemma HashLayerAt<E>(node: NodeHash<E>, b: nat, row: seq<E>, level: nat, w: nat, k: nat)
    requires b > 0 && |row| == w * b && k < w
    ensures |HashLayer(node, b, row, level)| == w
    ensures 0 <= k * b && k * b + b <= |row|
    ensures HashLayer(node, b, row, level)[k] == node(row[k * b..k * b + b], level)
  {
    ChunkCountExact(w, b);
    MulMono(k + 1, w, b);
    assert Chunk(row, b, k) == row[k * b..k * b + b];
  }

  lemma {:induction false} RowLen<E>(node: NodeHash<E>, b: nat, leaves: seq<E>, h: nat, l: nat)
    requires Perfect(b, leaves, h) && l <= h
    ensures |Row(node, b, leaves, l)| == Pow(b, h - l)
  {
    if l > 0 {
      RowLen(node, b, leaves, h, l - 1);
      PowStep(b, h - l);
      ChunkCountExact(Pow(b, h - l), b);
    }
  }

  /** One row up: each node is the hash of the aligned group of b nodes below it. */
  lemma RowStep<E>(node: NodeHash<E>, b: nat, leaves: seq<E>, h: nat, l: nat, k: nat)
    requires Perfect(b, leaves, h) && l < h && k < Pow(b, h - l - 1)
    ensures |Row(node, b, leaves, l)| == Pow(b, h - l) == Pow(b, h - l - 1) * b
    ensures |Row(node, b, leaves, l + 1)| == Pow(b, h - l - 1)
    ensures 0 <= k * b && k * b + b <= Pow(b, h - l)
    ensures Row(node, b, leaves, l + 1)[k] == node(Row(node, b, leaves, l)[k * b..k * b + b], l)
  {
    RowLen(node, b, leaves, h, l);
    PowStep(b, h - l - 1);
    HashLayerAt(node, b, Row(node, b, leaves, l), l, Pow(b, h - l - 1), k);
  }

  /** Rows 0..l and the rows above them make up the whole geometric sum. */
  lemma {:induction false} FlatLen<E>(node: NodeHash<E>, b: nat, leaves: seq<E>, h: nat, l: nat)
    requires Perfect(b, leaves, h) && l <= h
    ensures |Flat(node, b, leaves, l)| == Geo(b, h) - (if l == h then 0 else Geo(b, h - l - 1))
  {
    if l > 0 {
      FlatLen(node, b, leaves, h, l - 1);
      RowLen(node, b, leaves, h, l);
    }
  }

  lemma {:induction false} FlatPrefix<E>(node: NodeHash<E>, b: nat, leaves: seq<E>, l: nat, m: nat)
    requires b > 0 && l <= m
    ensures Flat(node, b, leaves, l) <= Flat(node, b, leaves, m)
    decreases m
  {
    if l < m { FlatPrefix(node, b, leaves, l, m - 1); }
  }

  /** Flat position Start(l) + k holds node k of row l. */
  lemma FlatAt<E>(node: NodeHash<E>, b: nat, leaves: seq<E>, l: nat, m: nat, k: nat)
    requires b > 0 && l <= m && k < |Row(node, b, leaves, l)|
    ensures Start(node, b, leaves, l) + k < |Flat(node, b, leaves, l)| <= |Flat(node, b, leaves, m)|
    ensures Flat(node, b, leaves, m)[Start(node, b, leaves, l) + k] == Row(node, b, leaves, l)[k]
  {
    FlatPrefix(node, b, leaves, l, m);
    assert Flat(node, b, leaves, m)[Start(node, b, leaves, l) + k]
        == Flat(node, b, leaves, l)[Start(node, b, leaves, l) + k];
  }

  lemma SliceArith(s: nat, k: nat, e: nat, b: nat)
    requires s + k < e
    ensures (s + k) * b == s * b + k * b
    ensures 0 <= k * b && k * b + b <= e * b - s * b == (e - s) * b
  {
    assert (s + k) * b == s * b + k * b;
    assert (e - s) * b == e * b - s * b;
    MulMono(k + 1, e - s, b);
  }

  /** The numbers of an aligned slice, in elements. */
  lemma SliceSpan(b: nat, s: nat, e: nat, w: nat)
    requires b > 0 && s <= e <= w
    ensures 0 <= s * b <= e * b <= w * b && e * b - s * b == (e - s) * b
  {
    MulMono(0, s, b);
    MulMono(s, e, b);
    MulMono(e, w, b);
    assert (e - s) * b == e * b - s * b;
  }

  /** Hashing an aligned slice of a row gives the matching slice of the next row. */
  lemma HashLayerSlice<E>(node: NodeHash<E>, b: nat, row: seq<E>, level: nat, s: nat, e: nat, w: nat)
    requires b > 0 && s <= e <= w && |row| == w * b
    ensures 0 <= s * b <= e * b <= |row|
    ensures |HashLayer(node, b, row, level)| == w
    ensures HashLayer(node, b, row[s * b..e * b], level) == HashLayer(node, b, row, level)[s..e]
  {
    hide HashLayer, ChunkCount;
    SliceSpan(b, s, e, w);
    var lo, hi := s * b, e * b;
    var part := row[lo..hi];
    ChunkCountExact(w, b);
    ChunkCountExact(e - s, b);
    var whole, upper := HashLayer(node, b, row, level), HashLayer(node, b, part, level);
    forall k: nat | k < e - s
      ensures upper[k] == whole[s + k]
    {
      HashInSlice(node, b, row, level, s, e, w, k);
    }
  }

  lemma HashInSlice<E>(node: NodeHash<E>, b: nat, row: seq<E>, level: nat, s: nat, e: nat, w: nat, k: nat)
    requires b > 0 && s + k < e <= w && |row| == w * b
    ensures 0 <= s * b <= e * b <= |row| && |row[s * b..e * b]| == (e - s) * b
    ensures |HashLayer(node, b, row[s * b..e * b], level)| == e - s && |HashLayer(node, b, row, level)| == w
    ensures HashLayer(node, b, row[s * b..e * b], level)[k] == HashLayer(node, b, row, level)[s + k]
  {
    hide HashLayer, ChunkCount;
    SliceSpan(b, s, e, w);
    SliceArith(s, k, e, b);
    HashLayerAt(node, b, row[s * b..e * b], level, e - s, k);
    HashLayerAt(node, b, row, level, w, s + k);
    SliceOfSlice(row, s * b, e * b, k * b, k * b + b);
  }

  /** Where the q-th aligned segment of b^m leaves starts in row l. */
  ghost function Offset(b: nat, m: nat, q: nat, l: nat): nat
    requires l <= m
  {
    Times(q, Pow(b, m - l))
  }

  lemma OffsetStep(b: nat, m: nat, q: nat, l: nat)
    requires l < m
    ensures Offset(b, m, q, l) == Offset(b, m, q, l + 1) * b
    ensures Pow(b, m - l) == Pow(b, m - l - 1) * b
    ensures Offset(b, m, q, l) + Pow(b, m - l) == (Offset(b, m, q, l + 1) + Pow(b, m - l - 1)) * b
  {
    var p := Pow(b, m - l - 1);
    PowStep(b, m - l - 1);
    TimesProduct(q, p * b);
    TimesProduct(q, p);
    MulAssoc(q, p, b);
  }

  lemma OffsetFits(b: nat, h: nat, m: nat, q: nat, l: nat)
    requires l <= m <= h && q < Pow(b, h - m)
    ensures Offset(b, m, q, l) + Pow(b, m - l) <= Pow(b, h - l)
  {
    TimesFits(q, Pow(b, h - m), Pow(b, m - l));
    TimesProduct(Pow(b, h - m), Pow(b, m - l));
    PowAdd(b, h - m, m - l);
  }

  /** The tree over an aligned segment of b^m leaves is cut out of the whole tree, row by row. */
  lemma {:induction false} SegmentRows<E>(node: NodeHash<E>, b: nat, leaves: seq<E>, h: nat, m: nat, q: nat, l: nat)
    requires Perfect(b, leaves, h) && l <= m <= h && q < Pow(b, h - m)
    ensures Offset(b, m, q, 0) + Pow(b, m) <= |leaves|
    ensures Offset(b, m, q, l) + Pow(b, m - l) <= |Row(node, b, leaves, l)| == Pow(b, h - l)
    ensures Row(node, b, leaves[Offset(b, m, q, 0)..Offset(b, m, q, 0) + Pow(b, m)], l)
         == Row(node, b, leaves, l)[Offset(b, m, q, l)..Offset(b, m, q, l) + Pow(b, m - l)]
  {
    hide Pow, Offset, HashLayer, Row;
    OffsetFits(b, h, m, q, 0);
    OffsetFits(b, h, m, q, l);
    RowLen(node, b, leaves, h, l);
    if l == 0 {
      RowZero(node, b, leaves);
      RowZero(node, b, leaves[Offset(b, m, q, 0)..Offset(b, m, q, 0) + Pow(b, m)]);
    } else {
      RowAbove(node, b, leaves[Offset(b, m, q, 0)..Offset(b, m, q, 0) + Pow(b, m)], l - 1);
      SegmentRows(node, b, leaves, h, m, q, l - 1);
      SegmentRow(node, b, leaves, h, m, q, l - 1);
    }
  }

  lemma RowAbove<E>(node: NodeHash<E>, b: nat, leaves: seq<E>, l: nat)
    requires b > 0
    ensures Row(node, b, leaves, l + 1) == HashLayer(node, b, Row(node, b, leaves, l), l)
  {}

  /** One row up inside the segment. */
  lemma SegmentRow<E>(node: NodeHash<E>, b: nat, leaves: seq<E>, h: nat, m: nat, q: nat, l: nat)
    requires Perfect(b, leaves, h) && l < m <= h && q < Pow(b, h - m)
    ensures |Row(node, b, leaves, l)| == Pow(b, h - l) && |Row(node, b, leaves, l + 1)| == Pow(b, h - l - 1)
    ensures Offset(b, m, q, l) + Pow(b, m - l) <= Pow(b, h - l)
    ensures Offset(b, m, q, l + 1) + Pow(b, m - l - 1) <= Pow(b, h - l - 1)
    ensures HashLayer(node, b, Row(node, b, leaves, l)[Offset(b, m, q, l)..Offset(b, m, q, l) + Pow(b, m - l)], l)
         == Row(node, b, leaves, l + 1)[Offset(b, m, q, l + 1)..Offset(b, m, q, l + 1) + Pow(b, m - l - 1)]
  {
    hide Pow, Offset, HashLayer, Row;
    RowAbove(node, b, leaves, l);
    RowLen(node, b, leaves, h, l);
    RowLen(node, b, leaves, h, l + 1);
    OffsetFits(b, h, m, q, l);
    OffsetFits(b, h, m, q, l + 1);
    OffsetStep(b, m, q, l);
    PowStep(b, h - l - 1);
    var s := Offset(b, m, q, l + 1);
    HashLayerSlice(node, b, Row(node, b, leaves, l), l, s, s + Pow(b, m - l - 1), Pow(b, h - l - 1));
  }

  /** The recursive tree hash: b subtrees, each hashed on its own. */
  ghost function TreeHash<E>(node: NodeHash<E>, b: nat, h: nat, leaves: seq<E>): E
    requires Perfect(b, leaves, h)
    decreases h, 0
  {
    if h == 0 then leaves[0] else
      node(seq(b, c requires 0 <= c < b => SubtreeHash(node, b, h - 1, leaves, c)), h - 1)
  }

  lemma SubtreeFits(b: nat, h: nat, c: nat)
    requires c < b
    ensures Offset(b, h, c, 0) + Pow(b, h) <= Pow(b, h + 1)
  {
    TimesFits(c, b, Pow(b, h));
    TimesProduct(b, Pow(b, h));
    PowStep(b, h);
  }

  /** The hash of the c-th of b subtrees. */
  ghost function SubtreeHash<E>(node: NodeHash<E>, b: nat, h: nat, leaves: seq<E>, c: nat): E
    requires Perfect(b, leaves, h + 1) && c < b
    decreases h, 1
  {
    SubtreeFits(b, h, c);
    TreeHash(node, b, h, leaves[Offset(b, h, c, 0)..Offset(b, h, c, 0) + Pow(b, h)])
  }

  /** Node c of row h - 1 is the root row of the c-th subtree. */
  lemma SubtreeRow<E>(node: NodeHash<E>, b: nat, leaves: seq<E>, h: nat, c: nat)
    requires Perfect(b, leaves, h + 1) && c < b
    ensures |Row(node, b, leaves, h)| == b
    ensures Offset(b, h, c, 0) + Pow(b, h) <= |leaves|
    ensures var part := leaves[Offset(b, h, c, 0)..Offset(b, h, c, 0) + Pow(b, h)];
            |Row(node, b, part, h)| == 1 && Row(node, b, part, h)[0] == Row(node, b, leaves, h)[c]
  {
    PowSmall(b);
    TimesProduct(c, 1);
    SegmentRows(node, b, leaves, h + 1, h, c, h);
  }

  lemma {:induction false} RootRow<E>(node: NodeHash<E>, b: nat, leaves: seq<E>, h: nat)
    requires Perfect(b, leaves, h)
    ensures |Row(node, b, leaves, h)| == 1 && Row(node, b, leaves, h)[0] == TreeHash(node, b, h, leaves)
    decreases h, 0
  {
    if h > 0 {
      var below := Row(node, b, leaves, h - 1);
      SubtreeRow(node, b, leaves, h - 1, 0);
      forall c: nat | c < b
        ensures below[c] == SubtreeHash(node, b, h - 1, leaves, c)
      {
        SubtreeRoot(node, b, leaves, h - 1, c);
      }
      RootOfRow(node, b, leaves, h - 1, below);
    }
  }

  lemma {:induction false} SubtreeRoot<E>(node: NodeHash<E>, b: nat, leaves: seq<E>, h: nat, c: nat)
    requires Perfect(b, leaves, h + 1) && c < b
    ensures |Row(node, b, leaves, h)| == b
    ensures Row(node, b, leaves, h)[c] == SubtreeHash(node, b, h, leaves, c)
    decreases h, 1
  {
    SubtreeRow(node, b, leaves, h, c);
    RootRow(node, b, leaves[Offset(b, h, c, 0)..Offset(b, h, c, 0) + Pow(b, h)], h);
  }

  lemma RootOfRow<E>(node: NodeHash<E>, b: nat, leaves: seq<E>, h: nat, below: seq<E>)
    requires Perfect(b, leaves, h + 1) && |below| == b
    requires forall c: nat | c < b :: below[c] == SubtreeHash(node, b, h, leaves, c)
    ensures HashLayer(node, b, below, h) == [TreeHash(node, b, h + 1, leaves)]
  {
    HashLayerAt(node, b, below, h, 1, 0);
    assert below[0..b] == below;
    SubtreesHash(node, b, leaves, h, below);
  }

  lemma SubtreesHash<E>(node: NodeHash<E>, b: nat, leaves: seq<E>, h: nat, below: seq<E>)
    requires Perfect(b, leaves, h + 1) && |below| == b
    requires forall c: nat | c < b :: below[c] == SubtreeHash(node, b, h, leaves, c)
    ensures TreeHash(node, b, h + 1, leaves) == node(below, h)
  {
    assert below == seq(b, c requires 0 <= c < b => SubtreeHash(node, b, h, leaves, c));
  }

  /** Main link between the flat layout and the reference: node k of row l is the recursive hash
      of the k-th aligned group of b^l leaves. */
  lemma RowIsTreeHash<E>(node: NodeHash<E>, b: nat, leaves: seq<E>, h: nat, l: nat, k: nat)
    requires Perfect(b, leaves, h) && l <= h && k < Pow(b, h - l)
    ensures |Row(node, b, leaves, l)| == Pow(b, h - l)
    ensures 0 <= k * Pow(b, l) && k * Pow(b, l) + Pow(b, l) <= |leaves|
    ensures Row(node, b, leaves, l)[k]
         == TreeHash(node, b, l, leaves[k * Pow(b, l)..k * Pow(b, l) + Pow(b, l)])
  {
    TimesProduct(k, Pow(b, l));
    TimesProduct(k, 1);
    SegmentRows(node, b, leaves, h, l, k, l);
    RootRow(node, b, leaves[Offset(b, l, k, 0)..Offset(b, l, k, 0) + Pow(b, l)], l);
  }

  /** The last element of the flat array is the recursive hash of all leaves. */
  lemma RootIsTreeHash<E>(node: NodeHash<E>, b: nat, leaves: seq<E>, h: nat)
    requires Perfect(b, leaves, h)
    ensures |Row(node, b, leaves, h)| == 1 && |Flat(node, b, leaves, h)| == Geo(b, h)
    ensures Start(node, b, leaves, h) == Geo(b, h) - 1
    ensures Flat(node, b, leaves, h)[Geo(b, h) - 1] == Row(node, b, leaves, h)[0] == TreeHash(node, b, h, leaves)
  {
    RootRow(node, b, leaves, h);
    FlatLen(node, b, leaves, h, h);
    if h > 0 { FlatLen(node, b, leaves, h, h - 1); }
  }
}
