/** Proof siblings inside an aligned segment of a tree are those of the segment's own tree. */
module Segments {
  import opened Powers
  import opened Sequences
  import opened Rows
  import opened Paths

  lemma {:induction false} ShiftByGroups(x: nat, b: nat, k: nat)
    requires b >= 2
    ensures Rem(x + k * b, b) == Rem(x, b) && Quot(x + k * b, b) == Quot(x, b) + k
    decreases k
  {
    if k > 0 {
      ShiftByGroups(x, b, k - 1);
      assert x + k * b == (x + (k - 1) * b) + b;
    }
  }

  lemma OffsetUp(b: nat, m: nat, q: nat, l: nat, j: nat)
    requires b >= 2 && l < m && Offset(b, m, q, l) <= j < Offset(b, m, q, l) + Pow(b, m - l)
    ensures Offset(b, m, q, l) == Offset(b, m, q, l + 1) * b
    ensures Rem(j, b) == Rem(j - Offset(b, m, q, l), b)
    ensures Quot(j, b) == Offset(b, m, q, l + 1) + Quot(j - Offset(b, m, q, l), b)
    ensures Offset(b, m, q, l + 1) <= Quot(j, b) < Offset(b, m, q, l + 1) + Pow(b, m - l - 1)
  {
    var up := Offset(b, m, q, l + 1);
    OffsetStep(b, m, q, l);
    ShiftByGroups(j - up * b, b, up);
    ParentFits(j - up * b, b, Pow(b, m - l - 1));
  }

  lemma ShiftedSiblings<E>(row: seq<E>, part: seq<E>, b: nat, off: nat, j: nat)
    requires b >= 2 && off + |part| <= |row| && part == row[off..off + |part|]
    requires off <= j && Rem(j, b) == Rem(j - off, b) && (j - off) - Rem(j - off, b) + b <= |part|
    ensures Siblings(row, b, j) == Siblings(part, b, j - off)
  {
    hide Rem, Without;
    var g := j - Rem(j, b);
    assert g - off == (j - off) - Rem(j - off, b);
    ShiftedGroup(row, part, off, g, j, g + b);
  }

  lemma ShiftedGroup<E>(row: seq<E>, part: seq<E>, off: nat, g: nat, j: nat, end: nat)
    requires off + |part| <= |row| && part == row[off..off + |part|]
    requires off <= g <= j < end <= off + |part|
    ensures Without(row, j, g, end) == Without(part, j - off, g - off, end - off)
  {
    hide Without;
    PartSlice(row, part, off, g, j);
    PartSlice(row, part, off, j + 1, end);
    WithoutInside(row, j, g, end);
    WithoutInside(part, j - off, g - off, end - off);
  }

  lemma PartSlice<E>(row: seq<E>, part: seq<E>, off: nat, x: nat, y: nat)
    requires off + |part| <= |row| && part == row[off..off + |part|] && off <= x <= y <= off + |part|
    ensures row[x..y] == part[x - off..y - off]
  {
    var u, v := x - off, y - off;
    SliceOfSlice(row, off, off + |part|, u, v);
    assert off + u == x && off + v == y;
  }

  /** The segment of the leaves and its rows. */
  ghost function Segment<E>(b: nat, leaves: seq<E>, h: nat, m: nat, q: nat): (s: seq<E>)
    requires Perfect(b, leaves, h) && m <= h && q < Pow(b, h - m)
    ensures Perfect(b, s, m)
  {
    OffsetFits(b, h, m, q, 0);
    leaves[Offset(b, m, q, 0)..Offset(b, m, q, 0) + Pow(b, m)]
  }

  /** In every row below the top of the segment, the siblings of a node are found inside it. */
  lemma SegmentSiblings<E>(node: NodeHash<E>, b: nat, leaves: seq<E>, h: nat, m: nat, q: nat, l: nat, j: nat)
    requires Perfect(b, leaves, h) && l < m <= h && q < Pow(b, h - m)
    requires Offset(b, m, q, l) <= j < Offset(b, m, q, l) + Pow(b, m - l)
    ensures j < Pow(b, h - l) == |Row(node, b, leaves, l)| && j - Rem(j, b) + b <= Pow(b, h - l)
    ensures |Row(node, b, Segment(b, leaves, h, m, q), l)| == Pow(b, m - l)
    ensures var off := Offset(b, m, q, l);
            (j - off) - Rem(j - off, b) + b <= Pow(b, m - l)
            && Siblings(Row(node, b, leaves, l), b, j)
               == Siblings(Row(node, b, Segment(b, leaves, h, m, q), l), b, j - off)
  {
    hide Pow, Quot, Rem, Row, Siblings, Offset;
    SegmentRows(node, b, leaves, h, m, q, l);
    OffsetUp(b, m, q, l, j);
    GroupInRow(node, b, leaves, h, l, j);
    GroupInRow(node, b, Segment(b, leaves, h, m, q), m, l, j - Offset(b, m, q, l));
    ShiftedSiblings(Row(node, b, leaves, l), Row(node, b, Segment(b, leaves, h, m, q), l), b, Offset(b, m, q, l), j);
  }

  lemma {:induction false} SegmentSiblingsUpTo<E>(node: NodeHash<E>, b: nat, leaves: seq<E>, h: nat, m: nat, q: nat,
                                                  l: nat, j: nat)
    requires Perfect(b, leaves, h) && l <= m <= h && q < Pow(b, h - m)
    requires Offset(b, m, q, l) <= j < Offset(b, m, q, l) + Pow(b, m - l)
    ensures j < Pow(b, h - l)
    ensures SiblingsUpTo(node, b, leaves, l, m, j)
         == SiblingsUpTo(node, b, Segment(b, leaves, h, m, q), l, m, j - Offset(b, m, q, l))
    decreases m - l
  {
    hide Pow, Quot, Rem, Row, Siblings, Offset;
    OffsetFits(b, h, m, q, l);
    if l < m {
      SegmentSiblings(node, b, leaves, h, m, q, l, j);
      OffsetUp(b, m, q, l, j);
      SegmentSiblingsUpTo(node, b, leaves, h, m, q, l + 1, Quot(j, b));
    }
  }

  /** The siblings up to row e are those up to row e - 1 and then those in row e - 1. */
  lemma {:induction false} LastSiblings<E>(node: NodeHash<E>, b: nat, leaves: seq<E>, h: nat, l: nat, e: nat, j: nat)
    requires Perfect(b, leaves, h) && l < e <= h && j < Pow(b, h - l)
    ensures var a := Up(j, b, e - 1 - l);
            && a < Pow(b, h - e + 1) == |Row(node, b, leaves, e - 1)|
            && a - Rem(a, b) + b <= |Row(node, b, leaves, e - 1)|
            && SiblingsUpTo(node, b, leaves, l, e, j)
               == SiblingsUpTo(node, b, leaves, l, e - 1, j) + Siblings(Row(node, b, leaves, e - 1), b, a)
    decreases e - l
  {
    hide Pow, Quot, Rem, Row, Siblings;
    GroupInRow(node, b, leaves, h, l, j);
    if l + 1 < e {
      LastSiblings(node, b, leaves, h, l + 1, e, Quot(j, b));
      UpFromBelow(j, b, e - 2 - l);
    }
  }
}
