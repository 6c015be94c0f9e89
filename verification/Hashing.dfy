/** The default hashing of src/hash.rs on bytes, the tree it makes of data items, and what an
    accepted proof then says about the data. */
module Hashing {
  import opened Outcome
  import opened Powers
  import opened Sequences
  import opened Rows
  import opened Shape
  import opened Proofs
  import opened Paths
  import opened Soundness

  newtype byte = x: int | 0 <= x < 256

  type Bytes = seq<byte>

  /** The hash function under the `Hasher`: all that was written, to the digest. */
  type Digest = Bytes -> Bytes

  const LEAF: byte := 0x00
  const INTERIOR: byte := 0x01

  function LeafHash(digest: Digest, item: Bytes): Bytes {
    digest([LEAF] + item)
  }

  /** `multi_node` with its height ignored. */
  function NodeOf(digest: Digest): NodeHash<Bytes> {
    (nodes: seq<Bytes>, height: nat) => digest([INTERIOR] + Flatten(nodes))
  }

  /** A hasher that collects what is written to it. */
  class Hasher {
    var written: Bytes
    const digest: Digest

    constructor (digest: Digest)
      ensures written == [] && this.digest == digest
    {
      written := [];
      this.digest := digest;
    }

    method Write(msg: Bytes)
      modifies this
      ensures written == old(written) + msg
    {
      written := written + msg;
    }

    method Reset()
      modifies this
      ensures written == []
    {
      written := [];
    }

    method Leaf(leaf: Bytes) returns (r: Bytes)
      modifies this
      ensures r == digest(old(written) + [0x00] + leaf)
      ensures old(written) == [] ==> r == LeafHash(digest, leaf)
    {
      Write([LEAF]);
      Write(leaf);
      assert old(written) == [] ==> [] + [LEAF] + leaf == [LEAF] + leaf;
      r := digest(written);
    }

    method MultiNode(nodes: seq<Bytes>, height: nat) returns (r: Bytes)
      modifies this
      ensures r == digest(old(written) + [0x01] + Flatten(nodes))
      ensures old(written) == [] ==> r == NodeOf(digest)(nodes, height)
    {
      Write([INTERIOR]);
      for i := 0 to |nodes|
        invariant written + Flatten(nodes[i..]) == old(written) + [INTERIOR] + Flatten(nodes)
      {
        Write(nodes[i]);
        assert nodes[i..][1..] == nodes[i + 1..];
      }
      assert nodes[|nodes|..] == [] && written == written + Flatten([]);
      assert old(written) == [] ==> [] + [INTERIOR] + Flatten(nodes) == [INTERIOR] + Flatten(nodes);
      r := digest(written);
    }
  }

  /** The leaf row made of data items by `populate_data`. */
  function LeafRow(digest: Digest, items: seq<Bytes>): (leaves: seq<Bytes>)
    ensures |leaves| == |items|
  {
    seq(|items|, k requires 0 <= k < |items| => LeafHash(digest, items[k]))
  }

  lemma NodeIsHeightFree(digest: Digest)
    ensures HeightFree(NodeOf(digest))
  {}

  // ---------- sizes ----------

  ghost predicate Fixed(digest: Digest, n: nat) {
    forall m: Bytes :: |digest(m)| == n
  }

  ghost predicate Sized(n: nat, s: seq<Bytes>) {
    forall k: nat | k < |s| :: |s[k]| == n
  }

  /** Lists of equally many elements of one size are told apart by their concatenation. */
  lemma {:induction false} FlattenInjective(n: nat, xs: seq<Bytes>, ys: seq<Bytes>)
    requires Sized(n, xs) && Sized(n, ys) && |xs| == |ys| && Flatten(xs) == Flatten(ys)
    ensures xs == ys
  {
    if xs != [] {
      var x, y := Flatten(xs), Flatten(ys);
      assert xs[0] == x[..n] && ys[0] == y[..n];
      assert Flatten(xs[1..]) == x[n..] && Flatten(ys[1..]) == y[n..];
      FlattenInjective(n, xs[1..], ys[1..]);
      assert xs == [xs[0]] + xs[1..] && ys == [ys[0]] + ys[1..];
    }
  }

  lemma NodeSized(digest: Digest, n: nat, nodes: seq<Bytes>, height: nat)
    requires Fixed(digest, n)
    ensures |NodeOf(digest)(nodes, height)| == n
  {
    assert NodeOf(digest)(nodes, height) == digest([INTERIOR] + Flatten(nodes));
  }

  lemma RowSized(digest: Digest, n: nat, b: nat, leaves: seq<Bytes>, l: nat)
    requires b > 0 && Fixed(digest, n) && Sized(n, leaves)
    ensures Sized(n, Row(NodeOf(digest), b, leaves, l))
  {
    if l > 0 {
      var below := Row(NodeOf(digest), b, leaves, l - 1);
      forall k: nat | k < |Row(NodeOf(digest), b, leaves, l)|
        ensures |Row(NodeOf(digest), b, leaves, l)[k]| == n
      {
        NodeSized(digest, n, Chunk(below, b, k), l - 1);
      }
    }
  }

  lemma {:induction false} AssembledSized(
    digest: Digest, n: nat, b: nat, hashes: seq<Bytes>, path: seq<nat>, x: Bytes, i: nat, p: nat, ns: seq<Bytes>)
    requires b >= 2 && i >= 1 && Fixed(digest, n) && Sized(n, hashes) && |x| == n
    requires Assembled(NodeOf(digest), b, hashes, path, x, i, p, ns)
    ensures |ns| == b && Sized(n, ns)
    decreases |hashes| - i
  {
    var ms := Assemble(hashes[i..], b, path[p], x).value.value;
    assert |ms| == b && Sized(n, ms) by {
      var rest, pos := hashes[i..], path[p];
      forall k: nat | k < b
        ensures |ms[k]| == n
      {
        if k != pos { assert ms[k] == rest[if k < pos then k else k - 1]; }
      }
    }
    if ns != ms {
      NodeSized(digest, n, ms, i - 1);
      AssembledSized(digest, n, b, hashes, path, NodeOf(digest)(ms, i - 1), i + (b - 1), p + 1, ns);
    }
  }

  lemma BuiltSized(digest: Digest, n: nat, b: nat, leaves: seq<Bytes>, h: nat, ms: seq<Bytes>)
    requires Perfect(b, leaves, h) && Fixed(digest, n) && Sized(n, leaves) && Built(NodeOf(digest), b, leaves, h, ms)
    ensures |ms| == b && Sized(n, ms)
  {
    var l: nat, k: nat :| l < h && k < Pow(b, h - l - 1) && ms == GroupAt(NodeOf(digest), b, leaves, h, l, k);
    RowStep(NodeOf(digest), b, leaves, h, l, k);
    RowSized(digest, n, b, leaves, l);
  }

  // ---------- what an accepted proof says ----------

  /** `validate_with_data`; `data` is what the leaf data writes to a hasher. */
  function ValidateWithData(digest: Digest, b: nat, proof: Proof<Bytes>, data: Bytes): Result<bool>
    requires b >= 2
  {
    var leafHash := LeafHash(digest, digest(data));
    if proof.hashes == [] then Err(Panicked)
    else if leafHash == proof.hashes[0] then Validate(NodeOf(digest), b, proof)
    else Ok(false)
  }

  /** Every verdict of `validate_with_data`: an empty lemma panics, other data than that of the item is turned
      down whatever the proof is worth, and for the data of the item the proof decides. */
  lemma WithDataVerdict(digest: Digest, b: nat, proof: Proof<Bytes>, data: Bytes)
    requires b >= 2
    ensures var r := ValidateWithData(digest, b, proof, data);
            && (r == Ok(true) <==> && proof.hashes != [] && proof.hashes[0] == digest([0x00] + digest(data))
                                   && Validate(NodeOf(digest), b, proof) == Ok(true))
            && (proof.hashes == [] ==> r == Err(Panicked))
            && (proof.hashes != [] && proof.hashes[0] != digest([0x00] + digest(data)) ==> r == Ok(false))
            && (r.Err? && proof.hashes != [] ==> r == Validate(NodeOf(digest), b, proof))
  {
    hide Validate;
  }

  /** A byte string hashed while the proof is validated: that of the leaf, or of a node list. */
  ghost predicate HashedByValidation(digest: Digest, b: nat, hashes: seq<Bytes>, path: seq<nat>, item: Bytes, s: Bytes)
    requires b >= 2 && |hashes| >= 1
  {
    || s == [LEAF] + item
    || exists ns: seq<Bytes> ::
         Assembled(NodeOf(digest), b, hashes, path, hashes[0], 1, 0, ns) && s == [INTERIOR] + Flatten(ns)
  }

  /** A byte string hashed while the tree was built: that of a leaf, or of a group. */
  ghost predicate HashedByBuild(digest: Digest, b: nat, items: seq<Bytes>, h: nat, s: Bytes)
    requires Perfect(b, items, h)
  {
    || (exists k: nat :: k < |items| && s == [LEAF] + items[k])
    || exists ms: seq<Bytes> :: Built(NodeOf(digest), b, LeafRow(digest, items), h, ms) && s == [INTERIOR] + Flatten(ms)
  }

  /** Two different byte strings with the same digest, one hashed by each side. */
  ghost predicate CollisionShown(digest: Digest, b: nat, items: seq<Bytes>, h: nat,
                                 hashes: seq<Bytes>, path: seq<nat>, item: Bytes)
    requires Perfect(b, items, h) && |hashes| >= 1
  {
    exists s: Bytes, t: Bytes ::
      && HashedByValidation(digest, b, hashes, path, item, s) && HashedByBuild(digest, b, items, h, t)
      && s != t && digest(s) == digest(t)
  }

  /** A clash of node lists is a clash of byte strings. */
  lemma ClashIsCollision(digest: Digest, n: nat, b: nat, items: seq<Bytes>, h: nat, hashes: seq<Bytes>,
                         path: seq<nat>, item: Bytes)
    requires Perfect(b, items, h) && Fixed(digest, n) && |hashes| >= 1 && Sized(n, hashes)
    requires Collision(NodeOf(digest), b, LeafRow(digest, items), h, hashes, path, hashes[0], 1, 0)
    ensures CollisionShown(digest, b, items, h, hashes, path, item)
  {
    var node, leaves := NodeOf(digest), LeafRow(digest, items);
    var ns: seq<Bytes>, ms: seq<Bytes> :| Assembled(node, b, hashes, path, hashes[0], 1, 0, ns)
                                          && Built(node, b, leaves, h, ms) && Clash(node, ns, ms);
    AssembledSized(digest, n, b, hashes, path, hashes[0], 1, 0, ns);
    BuiltSized(digest, n, b, leaves, h, ms);
    var s, t := [INTERIOR] + Flatten(ns), [INTERIOR] + Flatten(ms);
    if s == t {
      assert s[1..] == Flatten(ns) && t[1..] == Flatten(ms);
      FlattenInjective(n, ns, ms);
    }
    assert HashedByValidation(digest, b, hashes, path, item, s) && HashedByBuild(digest, b, items, h, t);
  }

  /** A climb longer than the tree is high passes an interior hash off as a leaf. */
  lemma {:induction false} LongClimb(digest: Digest, b: nat, items: seq<Bytes>, h: nat, hashes: seq<Bytes>,
                                     path: seq<nat>,
                                     x: Bytes, i: nat, p: nat)
    returns (ns: seq<Bytes>, k: nat)
    requires Perfect(b, items, h) && i >= 1 && p <= |path|
    requires EndsAtRoot(NodeOf(digest), b, LeafRow(digest, items), h, hashes, path, x, i, p)
    requires Steps(|hashes|, i, b) > h
    ensures || Collision(NodeOf(digest), b, LeafRow(digest, items), h, hashes, path, x, i, p)
            || (&& Assembled(NodeOf(digest), b, hashes, path, x, i, p, ns) && k < |items|
                && digest([INTERIOR] + Flatten(ns)) == digest([LEAF] + items[k]))
    decreases |hashes| - i
  {
    var node, leaves := NodeOf(digest), LeafRow(digest, items);
    var first := FirstStep(node, b, leaves, h, hashes, path, x, i, p);
    var up := node(first, i - 1);
    ns, k := first, 0;
    if Steps(|hashes|, i, b) - 1 > h {
      ns, k := LongClimb(digest, b, items, h, hashes, path, up, i + (b - 1), p + 1);
    } else {
      NodeIsHeightFree(digest);
      ClimbSound(node, b, leaves, h, hashes, path, up, i + (b - 1), p + 1);
      if Lands(node, b, leaves, h, path, up, p + 1, h) { k := Decode(b, path, p + 1, h); }
    }
    if Collision(node, b, leaves, h, hashes, path, up, i + (b - 1), p + 1) {
      CollisionAbove(node, b, leaves, h, hashes, path, x, i, p, first);
    }
  }

  /** Main theorem. Let a base proof of whatever length carry the root of the tree built over
      `items`. If it is accepted together with `data`, then the validation loop took exactly as many
      steps as the tree has levels (for a lemma of the length `Proof::new` insists on: the path is one
      shorter than the tree has rows) and the hash of `data` is the item the path names, or two
      different byte strings with the same digest have been hashed on the two sides. */
  lemma AcceptedDataIsInTree(digest: Digest, n: nat, b: nat, items: seq<Bytes>, h: nat, proof: Proof<Bytes>,
                             data: Bytes)
    requires Fixed(digest, n) && Perfect(b, items, h)
    requires proof.topLayerNodes == 0 && proof.subTreeLayerNodes == 0 && Sized(n, proof.hashes)
    requires ValidateWithData(digest, b, proof, data) == Ok(true)
    requires proof.hashes[|proof.hashes| - 1] == TreeHash(NodeOf(digest), b, h, LeafRow(digest, items))
    ensures |proof.hashes| >= 2
    ensures || CollisionShown(digest, b, items, h, proof.hashes, proof.path, digest(data))
            || (&& Steps(|proof.hashes|, 1, b) == h <= |proof.path|
                && (|proof.hashes| == ProofLemmaLen(|proof.path| + 1, b) ==> |proof.path| == h)
                && Decode(b, proof.path, 0, h) < |items|
                && digest(data) == items[Decode(b, proof.path, 0, h)])
  {
    hide Pow, Row, TreeHash, Climb, Assembled, Steps, Decode, LeafRow, Collision, CollisionShown, Stride, NodeOf;
    var node, leaves := NodeOf(digest), LeafRow(digest, items);
    var hashes, path, item := proof.hashes, proof.path, digest(data);
    var m := Steps(|hashes|, 1, b);
    NodeIsHeightFree(digest);
    StepsOfStride(b, 1, |path|);
    StrideProduct(b, |path|);
    if m > h {
      var ns, k := LongClimb(digest, b, items, h, hashes, path, hashes[0], 1, 0);
      if Collision(node, b, leaves, h, hashes, path, hashes[0], 1, 0) {
        ClashIsCollision(digest, n, b, items, h, hashes, path, item);
      } else {
        InteriorAsLeaf(digest, b, items, h, hashes, path, item, ns, k);
      }
    } else {
      ClimbSound(node, b, leaves, h, hashes, path, hashes[0], 1, 0);
      if Collision(node, b, leaves, h, hashes, path, hashes[0], 1, 0) {
        ClashIsCollision(digest, n, b, items, h, hashes, path, item);
      } else {
        LandedLeaf(digest, b, items, h, hashes, path, item, m);
      }
    }
  }

  lemma StringsCollide(digest: Digest, b: nat, items: seq<Bytes>, h: nat, hashes: seq<Bytes>, path: seq<nat>,
                       item: Bytes,
                       s: Bytes, t: Bytes)
    requires Perfect(b, items, h) && |hashes| >= 1
    requires HashedByValidation(digest, b, hashes, path, item, s) && HashedByBuild(digest, b, items, h, t)
    requires s != t && digest(s) == digest(t)
    ensures CollisionShown(digest, b, items, h, hashes, path, item)
  {}

  lemma InteriorAsLeaf(digest: Digest, b: nat, items: seq<Bytes>, h: nat, hashes: seq<Bytes>, path: seq<nat>,
                       item: Bytes,
                       ns: seq<Bytes>, k: nat)
    requires Perfect(b, items, h) && |hashes| >= 1 && k < |items|
    requires Assembled(NodeOf(digest), b, hashes, path, hashes[0], 1, 0, ns)
    requires digest([INTERIOR] + Flatten(ns)) == digest([LEAF] + items[k])
    ensures CollisionShown(digest, b, items, h, hashes, path, item)
  {
    var s, t := [INTERIOR] + Flatten(ns), [LEAF] + items[k];
    assert s[0] != t[0];
    StringsCollide(digest, b, items, h, hashes, path, item, s, t);
  }

  /** A leaf hash found at the node a path names is the leaf of that item, or collides. */
  lemma LandedLeaf(digest: Digest, b: nat, items: seq<Bytes>, h: nat, hashes: seq<Bytes>, path: seq<nat>, item: Bytes,
                   m: nat)
    requires Perfect(b, items, h) && |hashes| >= 1 && m <= h && hashes[0] == LeafHash(digest, item)
    requires Lands(NodeOf(digest), b, LeafRow(digest, items), h, path, hashes[0], 0, m)
    ensures || CollisionShown(digest, b, items, h, hashes, path, item)
            || (m == h && Decode(b, path, 0, h) < |items| && item == items[Decode(b, path, 0, h)])
  {
    hide Pow, TreeHash, Assembled, Decode, CollisionShown, Flatten;
    var node, leaves := NodeOf(digest), LeafRow(digest, items);
    var k := Decode(b, path, 0, m);
    if m == h {
      if item != items[k] {
        assert ([LEAF] + item)[1..] == item && ([LEAF] + items[k])[1..] == items[k];
        StringsCollide(digest, b, items, h, hashes, path, item, [LEAF] + item, [LEAF] + items[k]);
      }
    } else {
      RowStep(node, b, leaves, h, h - m - 1, k);
      var group := GroupAt(node, b, leaves, h, h - m - 1, k);
      assert Built(node, b, leaves, h, group);
      var s, t := [LEAF] + item, [INTERIOR] + Flatten(group);
      assert s[0] != t[0];
      StringsCollide(digest, b, items, h, hashes, path, item, s, t);
    }
  }

  // ---------- the proofs of the tree itself ----------

  /** Completeness: the proof that a tree of data items owes for item i is accepted together with that
      item's data, and its path names i. */
  lemma OwnDataIsAccepted(digest: Digest, b: nat, items: seq<Bytes>, h: nat, i: nat, data: Bytes)
    requires Perfect(b, items, h) && i < |items| && items[i] == digest(data)
    ensures var proof := BaseProof(NodeOf(digest), b, LeafRow(digest, items), h, i);
            && ValidateWithData(digest, b, proof, data) == Ok(true)
            && |proof.path| == h && Decode(b, proof.path, 0, h) == i
  {
    hide Pow, Row, SiblingsUpTo, PathUpTo, Validate, Decode;
    NodeIsHeightFree(digest);
    BaseProofValidates(NodeOf(digest), b, LeafRow(digest, items), h, i);
    var path := BaseProof(NodeOf(digest), b, LeafRow(digest, items), h, i).path;
    assert path[0..] == path;
    PathNamesLeaf(b, h, 0, i, path, 0);
  }
}
