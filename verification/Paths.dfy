/** The proof a tree owes for each leaf, row by row, and its validation. */
module Paths {
  import opened Outcome
  import opened Powers
  import opened Sequences
  import opened Shape
  import opened Rows
  import opened Proofs

  /** The other members of the aligned group of b nodes around j, if the row holds that group. */
  function Siblings<E>(row: seq<E>, b: nat, j: nat): (s: seq<E>)
    requires b >= 2
    ensures j - Rem(j, b) + b <= |row| ==> |s| == b - 1
  {
    var g := j - Rem(j, b);
    if g + b <= |row| then Without(row, j, g, g + b) else []
  }

  /** The siblings met from row l up to (not including) row e, starting at node j. */
  ghost function SiblingsUpTo<E>(node: NodeHash<E>, b: nat, leaves: seq<E>, l: nat, e: nat, j: nat): seq<E>
    requires b >= 2 && l <= e
    decreases e - l
  {
    if l == e then [] else
      Siblings(Row(node, b, leaves, l), b, j) + SiblingsUpTo(node, b, leaves, l + 1, e, Quot(j, b))
  }

  /** The positions taken inside the groups on the same way. */
  function PathUpTo(b: nat, l: nat, e: nat, j: nat): (path: seq<nat>)
    requires b >= 2 && l <= e
    ensures |path| == e - l
    decreases e - l
  {
    if l == e then [] else [Rem(j, b)] + PathUpTo(b, l + 1, e, Quot(j, b))
  }

  /** The base proof owed for leaf i. */
  ghost function BaseProof<E>(node: NodeHash<E>, b: nat, leaves: seq<E>, h: nat, i: nat): Proof<E>
    requires Perfect(b, leaves, h) && i < |leaves|
  {
    Proof(None, 0, 0,
          [leaves[i]] + SiblingsUpTo(node, b, leaves, 0, h, i) + [TreeHash(node, b, h, leaves)],
          PathUpTo(b, 0, h, i))
  }

  /** The group around node j of row l lies in the row and hashes to its parent. */
  lemma GroupInRow<E>(node: NodeHash<E>, b: nat, leaves: seq<E>, h: nat, l: nat, j: nat)
    requires Perfect(b, leaves, h) && l < h && j < Pow(b, h - l)
    ensures |Row(node, b, leaves, l)| == Pow(b, h - l) && |Row(node, b, leaves, l + 1)| == Pow(b, h - l - 1)
    ensures Quot(j, b) < Pow(b, h - l - 1)
    ensures j - Rem(j, b) + b <= Pow(b, h - l)
    ensures Row(node, b, leaves, l + 1)[Quot(j, b)]
         == node(Row(node, b, leaves, l)[j - Rem(j, b)..j - Rem(j, b) + b], l)
  {
    QuotRem(j, b);
    PowStep(b, h - l - 1);
    ParentFits(j, b, Pow(b, h - l - 1));
    RowStep(node, b, leaves, h, l, Quot(j, b));
  }

  lemma ParentFits(j: nat, b: nat, w: nat)
    requires b >= 2 && j < w * b
    ensures Quot(j, b) < w
  {
    QuotRem(j, b);
    GroupFits(j, b, w);
  }

  /** n strides of b - 1. */
  ghost function Stride(b: nat, n: nat): nat
    requires b >= 2
  {
    if n == 0 then 0 else (b - 1) + Stride(b, n - 1)
  }

  lemma {:induction false} StrideProduct(b: nat, n: nat)
    requires b >= 2
    ensures Stride(b, n) == (b - 1) * n
  {
    if n > 0 { StrideProduct(b, n - 1); }
  }

  lemma {:induction false} SiblingsLen<E>(node: NodeHash<E>, b: nat, leaves: seq<E>, h: nat, l: nat, e: nat, j: nat)
    requires Perfect(b, leaves, h) && l <= e <= h && j < Pow(b, h - l)
    ensures |SiblingsUpTo(node, b, leaves, l, e, j)| == Stride(b, e - l)
    decreases e - l
  {
    hide Pow, Quot, Rem, Row, Siblings;
    if l < e {
      GroupInRow(node, b, leaves, h, l, j);
      SiblingsLen(node, b, leaves, h, l + 1, e, Quot(j, b));
    }
  }

  // ---------- completeness ----------

  /** Putting a node back among its siblings gives the group it came from. */
  lemma AssembleGroup<E>(row: seq<E>, b: nat, j: nat, rest: seq<E>)
    requires b >= 2 && j - Rem(j, b) + b <= |row|
    requires |rest| >= b - 1 && rest[..b - 1] == Siblings(row, b, j)
    ensures Assemble(rest, b, Rem(j, b), row[j]) == Ok(Some(row[j - Rem(j, b)..j - Rem(j, b) + b]))
  {
    hide Rem;
    var g, pos := j - Rem(j, b), Rem(j, b);
    assert g + pos == j;
    Reassemble(row, b, g, pos, rest);
  }

  lemma Reassemble<E>(row: seq<E>, b: nat, g: nat, pos: nat, rest: seq<E>)
    requires pos < b && g + b <= |row| && |rest| >= b - 1
    requires rest[..b - 1] == row[g..g + pos] + row[g + pos + 1..g + b]
    ensures rest[..pos] + [row[g + pos]] + rest[pos..b - 1] == row[g..g + b]
  {
    var others := rest[..b - 1];
    assert rest[..pos] == others[..pos] == row[g..g + pos];
    assert rest[pos..b - 1] == others[pos..] == row[g + pos + 1..g + b];
    assert row[g..g + b] == row[g..g + pos] + [row[g + pos]] + row[g + pos + 1..g + b];
  }

  /** When the height handed to the hash by `validate` is the one used by the build. */
  ghost predicate HeightsAgree<E(!new)>(node: NodeHash<E>, b: nat, h: nat) {
    HeightFree(node) || b == 2 || h <= 1
  }

  lemma {:induction false} BinaryStride(n: nat)
    ensures Stride(2, n) == n
  {
    if n > 0 { BinaryStride(n - 1); }
  }

  lemma StepHeight<E(!new)>(node: NodeHash<E>, b: nat, h: nat, l: nat, ns: seq<E>)
    requires b >= 2 && HeightsAgree(node, b, h) && l < h
    ensures node(ns, Stride(b, l)) == node(ns, l)
  {
    BinaryStride(l);
  }

  /** One step of the climb: from node j of row l to its parent. */
  lemma ClimbStep<E>(node: NodeHash<E>, b: nat, row: seq<E>, j: nat, hashes: seq<E>, path: seq<nat>, i: nat, p: nat)
    requires b >= 2 && j - Rem(j, b) + b <= |row| && i >= 1 && i + b <= |hashes| && p < |path|
    requires hashes[i..i + (b - 1)] == Siblings(row, b, j) && path[p] == Rem(j, b)
    ensures Climb(node, b, hashes, path, row[j], i, p)
         == Climb(node, b, hashes, path, node(row[j - Rem(j, b)..j - Rem(j, b) + b], i - 1), i + (b - 1), p + 1)
  {
    assert hashes[i..][..b - 1] == hashes[i..i + (b - 1)];
    AssembleGroup(row, b, j, hashes[i..]);
  }

  /** The rest of a lemma and of a path: what is owed from row l on. */
  ghost predicate Owes<E>(node: NodeHash<E>, b: nat, leaves: seq<E>, h: nat, l: nat, j: nat,
                          hashes: seq<E>, path: seq<nat>, i: nat, p: nat)
    requires b >= 2 && l <= h
  {
    && i == 1 + Stride(b, l) && i < |hashes| && p <= |path|
    && hashes[i..|hashes| - 1] == SiblingsUpTo(node, b, leaves, l, h, j)
    && path[p..] == PathUpTo(b, l, h, j)
  }

  lemma OwesNext<E>(node: NodeHash<E>, b: nat, leaves: seq<E>, h: nat, l: nat, j: nat,
                    hashes: seq<E>, path: seq<nat>, i: nat, p: nat)
    requires Perfect(b, leaves, h) && l < h && j < Pow(b, h - l)
    requires Owes(node, b, leaves, h, l, j, hashes, path, i, p)
    ensures |Row(node, b, leaves, l)| == Pow(b, h - l) && j - Rem(j, b) + b <= Pow(b, h - l)
    ensures Quot(j, b) < Pow(b, h - l - 1)
    ensures i + b <= |hashes| && p < |path|
    ensures hashes[i..i + (b - 1)] == Siblings(Row(node, b, leaves, l), b, j) && path[p] == Rem(j, b)
    ensures Owes(node, b, leaves, h, l + 1, Quot(j, b), hashes, path, i + (b - 1), p + 1)
  {
    GroupInRow(node, b, leaves, h, l, j);
    var owed := hashes[i..|hashes| - 1];
    var sibs, more := Siblings(Row(node, b, leaves, l), b, j), SiblingsUpTo(node, b, leaves, l + 1, h, Quot(j, b));
    assert owed == sibs + more;
    assert hashes[i..i + (b - 1)] == owed[..b - 1] == sibs;
    assert hashes[i + (b - 1)..|hashes| - 1] == owed[b - 1..] == more;
    assert path[p] == path[p..][0];
    assert path[p + 1..] == path[p..][1..];
  }

  lemma ClimbOneRow<E(!new)>(node: NodeHash<E>, b: nat, leaves: seq<E>, h: nat, l: nat, j: nat,
                             hashes: seq<E>, path: seq<nat>, i: nat, p: nat)
    requires Perfect(b, leaves, h) && l < h && j < Pow(b, h - l) && HeightsAgree(node, b, h)
    requires Owes(node, b, leaves, h, l, j, hashes, path, i, p)
    ensures j < |Row(node, b, leaves, l)| && Quot(j, b) < |Row(node, b, leaves, l + 1)| == Pow(b, h - l - 1)
    ensures Owes(node, b, leaves, h, l + 1, Quot(j, b), hashes, path, i + (b - 1), p + 1)
    ensures Climb(node, b, hashes, path, Row(node, b, leaves, l)[j], i, p)
         == Climb(node, b, hashes, path, Row(node, b, leaves, l + 1)[Quot(j, b)], i + (b - 1), p + 1)
  {
    hide Pow, Quot, Rem, Row, Siblings, SiblingsUpTo, PathUpTo, Climb, Stride;
    var row := Row(node, b, leaves, l);
    OwesNext(node, b, leaves, h, l, j, hashes, path, i, p);
    GroupInRow(node, b, leaves, h, l, j);
    ClimbStep(node, b, row, j, hashes, path, i, p);
    StepHeight(node, b, h, l, row[j - Rem(j, b)..j - Rem(j, b) + b]);
  }

  /** From any row on, the climb along the owed siblings ends at the root. */
  lemma {:induction false} ClimbReachesRoot<E(!new)>(
    node: NodeHash<E>, b: nat, leaves: seq<E>, h: nat, l: nat, j: nat,
    hashes: seq<E>, path: seq<nat>, i: nat, p: nat)
    requires Perfect(b, leaves, h) && l <= h && j < Pow(b, h - l) && HeightsAgree(node, b, h)
    requires Owes(node, b, leaves, h, l, j, hashes, path, i, p)
    ensures j < |Row(node, b, leaves, l)| && |Row(node, b, leaves, h)| == 1
    ensures Climb(node, b, hashes, path, Row(node, b, leaves, l)[j], i, p) == Ok(Some(Row(node, b, leaves, h)[0]))
    decreases h - l
  {
    hide Quot, Rem, Row, Stride, Pow, Owes, Climb;
    RowLen(node, b, leaves, h, l);
    RowLen(node, b, leaves, h, h);
    PowSmall(b);
    if l < h {
      ClimbOneRow(node, b, leaves, h, l, j, hashes, path, i, p);
      ClimbReachesRoot(node, b, leaves, h, l + 1, Quot(j, b), hashes, path, i + (b - 1), p + 1);
    } else {
      ClimbDone(node, b, leaves, h, j, hashes, path, i, p);
      assert Pow(b, h - l) == 1;
    }
  }

  lemma ClimbDone<E(!new)>(node: NodeHash<E>, b: nat, leaves: seq<E>, h: nat, j: nat,
                     hashes: seq<E>, path: seq<nat>, i: nat, p: nat)
    requires b >= 2 && Owes(node, b, leaves, h, h, j, hashes, path, i, p)
    ensures i >= 1 && forall x: E :: Climb(node, b, hashes, path, x, i, p) == Ok(Some(x))
  {}

  /** Every owed base proof validates, for every hash that ignores the height, and for height-aware
      hashes on binary trees and on trees of one level. */
  lemma BaseProofValidates<E(!new)>(node: NodeHash<E>, b: nat, leaves: seq<E>, h: nat, i: nat)
    requires Perfect(b, leaves, h) && i < |leaves| && HeightsAgree(node, b, h)
    ensures Validate(node, b, BaseProof(node, b, leaves, h, i)) == Ok(true)
  {
    RootIsTreeHash(node, b, leaves, h);
    var proof := BaseProof(node, b, leaves, h, i);
    assert proof.hashes[1..|proof.hashes| - 1] == SiblingsUpTo(node, b, leaves, 0, h, i);
    assert proof.path[0..] == proof.path;
    ClimbReachesRoot(node, b, leaves, h, 0, i, proof.hashes, proof.path, 1, 0);
  }

  /** The constructor's length check passes on every owed proof of at least one level. */
  lemma BaseProofIsAccepted<E>(node: NodeHash<E>, b: nat, leaves: seq<E>, h: nat, i: nat)
    requires Perfect(b, leaves, h) && i < |leaves| && h >= 1
    ensures var p := BaseProof(node, b, leaves, h, i);
            |p.hashes| == ProofLemmaLen(h + 1, b) && |p.path| == h
            && NewProof(b, 0, 0, None, p.hashes, p.path) == Ok(p)
  {
    SiblingsLen(node, b, leaves, h, 0, h, i);
    StrideProduct(b, h);
  }

  // ---------- height-aware hashes ----------

  /** A hash that is nothing but the height it is told. */
  function LevelHash(): NodeHash<nat> {
    (ns: seq<nat>, level: nat) => level
  }

  /** Whatever it starts from, the climb with this hash ends at the height of its last step. */
  lemma {:induction false} LevelClimb(b: nat, hashes: seq<nat>, path: seq<nat>, x: nat, i: nat, p: nat, steps: nat)
    requires b >= 2 && i >= 1 && |hashes| == i + Stride(b, steps) + 1 && p + steps <= |path|
    requires forall k: nat | p <= k < |path| :: path[k] < b
    ensures Climb(LevelHash(), b, hashes, path, x, i, p)
         == Ok(Some(if steps == 0 then x else i - 1 + Stride(b, steps - 1)))
    decreases steps
  {
    if steps > 0 {
      LevelClimb(b, hashes, path, i - 1, i + (b - 1), p + 1, steps - 1);
    }
  }

  lemma {:induction false} PathInRange(b: nat, l: nat, e: nat, j: nat)
    requires b >= 2 && l <= e
    ensures forall k: nat | k < |PathUpTo(b, l, e, j)| :: PathUpTo(b, l, e, j)[k] < b
    decreases e - l
  {
    if l < e { PathInRange(b, l + 1, e, Quot(j, b)); }
  }

  /** The build hashes row l at height l, `validate` at height l * (b - 1). A hash that shows its height is
      therefore validated exactly on binary trees and on trees of one level. */
  lemma HeightAwareProofs(b: nat, leaves: seq<nat>, h: nat, i: nat)
    requires Perfect(b, leaves, h) && i < |leaves|
    ensures Validate(LevelHash(), b, BaseProof(LevelHash(), b, leaves, h, i)) == Ok(b == 2 || h <= 1)
  {
    hide Pow, Row, SiblingsUpTo, PathUpTo, TreeHash, Climb, Stride;
    if h <= 1 || b == 2 {
      BaseProofValidates(LevelHash(), b, leaves, h, i);
    } else {
      var proof := BaseProof(LevelHash(), b, leaves, h, i);
      SiblingsLen(LevelHash(), b, leaves, h, 0, h, i);
      PathInRange(b, 0, h, i);
      LevelClimb(b, proof.hashes, proof.path, leaves[i], 1, 0, h);
      LevelRoot(b, leaves, h);
      StrideProduct(b, h - 1);
      MulMono(2, b - 1, h - 1);
    }
  }

  lemma LevelRoot(b: nat, leaves: seq<nat>, h: nat)
    requires Perfect(b, leaves, h) && h > 0
    ensures TreeHash(LevelHash(), b, h, leaves) == h - 1
  {
    hide Pow;
  }

  /** Exactly on those trees are the proofs safe for every hash. */
  lemma SafeForEveryHash(b: nat, leaves: seq<nat>, h: nat, i: nat)
    requires Perfect(b, leaves, h) && i < |leaves|
    ensures (forall node: NodeHash<nat> :: Validate(node, b, BaseProof(node, b, leaves, h, i)) == Ok(true))
       <==> b == 2 || h <= 1
  {
    HeightAwareProofs(b, leaves, h, i);
    if b == 2 || h <= 1 {
      forall node: NodeHash<nat>
        ensures Validate(node, b, BaseProof(node, b, leaves, h, i)) == Ok(true)
      {
        BaseProofValidates(node, b, leaves, h, i);
      }
    }
  }
}
