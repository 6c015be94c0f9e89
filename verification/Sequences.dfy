/** Sequences joined, sliced, and with one element left out. */
module Sequences {
  import opened Powers

  /** Lists joined in order. */
  function Flatten<E>(parts: seq<seq<E>>): seq<E> {
    if parts == [] then [] else parts[0] + Flatten(parts[1..])
  }

  /** Equal parts: index i falls into part i / w at position i % w. */
  lemma FlattenAt<E>(parts: seq<seq<E>>, w: nat, i: nat)
    requires w >= 1 && forall k: nat | k < |parts| :: |parts[k]| == w
    requires i < |parts| * w
    ensures |Flatten(parts)| == |parts| * w && i / w < |parts| && i % w < w
    ensures Flatten(parts)[i] == parts[i / w][i % w]
  {
    hide Times, Quot, Rem, Flatten;
    TimesProduct(|parts|, w);
    QuotRem(i, w);
    FlattenPart(parts, w, i);
  }

  lemma {:induction false} FlattenPart<E>(parts: seq<seq<E>>, w: nat, i: nat)
    requires w >= 1 && forall k: nat | k < |parts| :: |parts[k]| == w
    requires i < Times(|parts|, w)
    ensures |Flatten(parts)| == Times(|parts|, w) && Quot(i, w) < |parts|
    ensures Flatten(parts)[i] == parts[Quot(i, w)][Rem(i, w)]
    decreases |parts|
  {
    FlattenLen(parts, w);
    if i >= w {
      FlattenPart(parts[1..], w, i - w);
    }
  }

  lemma {:induction false} FlattenLen<E>(parts: seq<seq<E>>, w: nat)
    requires forall k: nat | k < |parts| :: |parts[k]| == w
    ensures |Flatten(parts)| == Times(|parts|, w)
    decreases |parts|
  {
    if parts != [] { FlattenLen(parts[1..], w); }
  }

  /** Elements k up to `end`, without element j. */
  function Without<E>(row: seq<E>, j: nat, k: nat, end: nat): seq<E>
    requires k <= end <= |row|
  {
    if k <= j < end then row[k..j] + row[j + 1..end] else row[k..end]
  }

  lemma WithoutFirst<E>(row: seq<E>, j: nat, k: nat, end: nat)
    requires k < end <= |row|
    ensures k == j ==> Without(row, j, k, end) == Without(row, j, k + 1, end)
    ensures k != j ==> Without(row, j, k, end) == [row[k]] + Without(row, j, k + 1, end)
  {}

  lemma WithoutInside<E>(row: seq<E>, j: nat, k: nat, end: nat)
    requires k <= j < end <= |row|
    ensures Without(row, j, k, end) == row[k..j] + row[j + 1..end]
  {}

  lemma NoneLeft<E>(row: seq<E>, j: nat, k: nat)
    requires k <= |row|
    ensures Without(row, j, k, k) == []
  {}

  lemma SliceOfSlice<E>(s: seq<E>, lo: nat, hi: nat, x: nat, y: nat)
    requires lo <= hi <= |s| && x <= y <= hi - lo
    ensures s[lo..hi][x..y] == s[lo + x..lo + y]
  {
    var inner := s[lo..hi];
    assert forall i | 0 <= i < y - x :: inner[x..y][i] == inner[x + i] == s[lo + x..lo + y][i];
  }
}
