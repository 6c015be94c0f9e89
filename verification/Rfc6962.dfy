/** The hash tree of section 2.1 and the audit path of section 2.1.1 of RFC 6962, and the binary
    trees of the code base measured against them. */
module Rfc6962 {
  import opened Powers
  import opened Sequences
  import opened Rows
  import opened Paths
  import opened Segments
  import opened Hashing

  /** The largest power of two smaller than n. */
  function SplitPoint(n: nat): (k: nat)
    requires n >= 2
    ensures 0 < k < n <= 2 * k && IsPow2(k)
  {
    SplitBounds(n);
    NextPow2(n) / 2
  }

  lemma SplitBounds(n: nat)
    requires n >= 2
    ensures 0 < NextPow2(n) / 2 < n <= 2 * (NextPow2(n) / 2) && IsPow2(NextPow2(n) / 2)
  {
    NextPow2FromIsLeast(n, 0);
    assert NextPow2From(n, Pow(2, 0)) == NextPow2(n);
    var e: nat :| NextPow2(n) == Pow(2, e);
    PowDiv(2, e - 1);
  }

  lemma SplitPerfect(h: nat)
    ensures Pow(2, h + 1) >= 2 && SplitPoint(Pow(2, h + 1)) == Pow(2, h)
  {
    NextPow2Fixed(Pow(2, h + 1));
    PowDiv(2, h);
  }

  /** MTH(D[n]). */
  function TreeHeadHash(digest: Digest, d: seq<Bytes>): Bytes
    decreases |d|
  {
    if |d| == 0 then digest([])
    else if |d| == 1 then digest([0x00] + d[0])
    else
      var k := SplitPoint(|d|);
      digest([0x01] + TreeHeadHash(digest, d[..k]) + TreeHeadHash(digest, d[k..]))
  }

  /** PATH(m, D[n]). */
  function AuditPath(digest: Digest, m: nat, d: seq<Bytes>): seq<Bytes>
    requires m < |d|
    decreases |d|
  {
    if |d| == 1 then []
    else
      var k := SplitPoint(|d|);
      if m < k then AuditPath(digest, m, d[..k]) + [TreeHeadHash(digest, d[k..])]
      else AuditPath(digest, m - k, d[k..]) + [TreeHeadHash(digest, d[..k])]
  }

  lemma PairHash(digest: Digest, pair: seq<Bytes>, height: nat)
    requires |pair| == 2
    ensures NodeOf(digest)(pair, height) == digest([0x01] + pair[0] + pair[1])
  {
    assert pair[1..] == [pair[1]] && pair[1..][1..] == [];
    assert Flatten(pair[1..]) == pair[1] + Flatten([]);
    assert Flatten(pair) == pair[0] + pair[1];
    assert [INTERIOR] + Flatten(pair) == [0x01] + pair[0] + pair[1];
  }

  lemma HalfOffset(h: nat, c: nat)
    requires c < 2
    ensures Offset(2, h, c, 0) == if c == 0 then 0 else Pow(2, h)
  {
    TimesProduct(c, Pow(2, h));
  }

  /** The leaf rows of the two halves of a list of items. */
  lemma HalfRows(digest: Digest, items: seq<Bytes>, h: nat, c: nat)
    requires |items| == Pow(2, h + 1) && c < 2
    ensures var k := Pow(2, h);
            k <= |items| == 2 * k
            && Segment(2, LeafRow(digest, items), h + 1, h, c)
               == LeafRow(digest, if c == 0 then items[..k] else items[k..])
  {
    var k := Pow(2, h);
    PowSmall(2);
    PowStep(2, h);
    HalfOffset(h, c);
  }

  /** The root of a binary tree over hashed items is the tree head of the standard. */
  lemma {:induction false} RootIsTreeHead(digest: Digest, items: seq<Bytes>, h: nat)
    requires |items| == Pow(2, h)
    ensures TreeHash(NodeOf(digest), 2, h, LeafRow(digest, items)) == TreeHeadHash(digest, items)
    decreases h, 0
  {
    hide Pow, NodeOf, SubtreeHash, SplitPoint;
    PowSmall(2);
    if h > 0 {
      var k, node, leaves := Pow(2, h - 1), NodeOf(digest), LeafRow(digest, items);
      SplitPerfect(h - 1);
      HalfHead(digest, items, h - 1, 0);
      HalfHead(digest, items, h - 1, 1);
      var pair := [TreeHeadHash(digest, items[..k]), TreeHeadHash(digest, items[k..])];
      SubtreesHash(node, 2, leaves, h - 1, pair);
      PairHash(digest, pair, h - 1);
    }
  }

  lemma {:induction false} HalfHead(digest: Digest, items: seq<Bytes>, h: nat, c: nat)
    requires |items| == Pow(2, h + 1) && c < 2
    ensures var k := Pow(2, h);
            k <= |items|
            && SubtreeHash(NodeOf(digest), 2, h, LeafRow(digest, items), c)
               == TreeHeadHash(digest, if c == 0 then items[..k] else items[k..])
    decreases h, 1
  {
    hide Pow, NodeOf, LeafRow, TreeHeadHash;
    var k := Pow(2, h);
    PowStep(2, h);
    HalfRows(digest, items, h, c);
    PowSmall(2);
    HalfOffset(h, c);
    RootIsTreeHead(digest, if c == 0 then items[..k] else items[k..], h);
  }

  /** Main theorem: read bottom-up from flat offsets, the siblings of the proof for leaf i are, in
      order, the audit path the standard defines top-down. */
  lemma {:induction false} SiblingsAreAuditPath(digest: Digest, items: seq<Bytes>, h: nat, i: nat)
    requires |items| == Pow(2, h) && i < |items|
    ensures SiblingsUpTo(NodeOf(digest), 2, LeafRow(digest, items), 0, h, i) == AuditPath(digest, i, items)
    decreases h
  {
    hide Pow, Quot, Rem, Row, Siblings, LeafRow, NodeOf, SplitPoint;
    PowSmall(2);
    if h > 0 {
      var k := Pow(2, h - 1);
      var c := if i < k then 0 else 1;
      SplitPerfect(h - 1);
      SiblingsByHalves(digest, items, h - 1, i, c);
      if c == 0 {
        SiblingsAreAuditPath(digest, items[..k], h - 1, i);
      } else {
        SiblingsAreAuditPath(digest, items[k..], h - 1, i - k);
      }
    }
  }

  /** The siblings in the half that holds leaf i, then the tree head of the other half. */
  lemma SiblingsByHalves(digest: Digest, items: seq<Bytes>, h: nat, i: nat, c: nat)
    requires |items| == Pow(2, h + 1) && i < |items| && c == if i < Pow(2, h) then 0 else 1
    ensures var k := Pow(2, h);
            k <= |items| == 2 * k
            && (c == 0 ==> SiblingsUpTo(NodeOf(digest), 2, LeafRow(digest, items), 0, h + 1, i)
                           == SiblingsUpTo(NodeOf(digest), 2, LeafRow(digest, items[..k]), 0, h, i)
                              + [TreeHeadHash(digest, items[k..])])
            && (c == 1 ==> SiblingsUpTo(NodeOf(digest), 2, LeafRow(digest, items), 0, h + 1, i)
                           == SiblingsUpTo(NodeOf(digest), 2, LeafRow(digest, items[k..]), 0, h, i - k)
                              + [TreeHeadHash(digest, items[..k])])
  {
    hide Pow, Quot, Rem, Row, Siblings, SiblingsUpTo, LeafRow, NodeOf;
    PowStep(2, h);
    LastSiblings(NodeOf(digest), 2, LeafRow(digest, items), h + 1, 0, h + 1, i);
    AncestorHalf(i, h);
    OtherHalf(digest, items, h, c);
    LowerSiblings(digest, items, h, i, c);
  }

  lemma LowerSiblings(digest: Digest, items: seq<Bytes>, h: nat, i: nat, c: nat)
    requires |items| == Pow(2, h + 1) && i < |items| && c == if i < Pow(2, h) then 0 else 1
    ensures var k := Pow(2, h);
            k <= |items| == 2 * k
            && SiblingsUpTo(NodeOf(digest), 2, LeafRow(digest, items), 0, h, i)
               == SiblingsUpTo(NodeOf(digest), 2, LeafRow(digest, if c == 0 then items[..k] else items[k..]), 0, h,
                               if c == 0 then i else i - k)
  {
    hide Pow, Quot, Rem, Row, Siblings, SiblingsUpTo, LeafRow, NodeOf, Offset;
    PowSmall(2);
    PowStep(2, h);
    HalfOffset(h, c);
    SegmentSiblingsUpTo(NodeOf(digest), 2, LeafRow(digest, items), h + 1, h, c, 0, i);
    HalfRows(digest, items, h, c);
  }

  lemma AncestorHalf(i: nat, h: nat)
    requires i < Pow(2, h + 1)
    ensures Up(i, 2, h) == if i < Pow(2, h) then 0 else 1
  {
    UpIsQuotient(i, 2, h);
    PowStep(2, h);
    if i < Pow(2, h) { DivUnique(i, Pow(2, h), 0, i); } else { DivUnique(i, Pow(2, h), 1, i - Pow(2, h)); }
  }

  /** In the row of two below the root, the sibling of one half is the tree head of the other. */
  lemma OtherHalf(digest: Digest, items: seq<Bytes>, h: nat, c: nat)
    requires |items| == Pow(2, h + 1) && c < 2
    ensures var row := Row(NodeOf(digest), 2, LeafRow(digest, items), h);
            var k := Pow(2, h);
            |row| == 2 && k <= |items|
            && Siblings(row, 2, c) == [TreeHeadHash(digest, if c == 0 then items[k..] else items[..k])]
  {
    SubtreeRoot(NodeOf(digest), 2, LeafRow(digest, items), h, 1 - c);
    HalfHead(digest, items, h, 1 - c);
  }
}
