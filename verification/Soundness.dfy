/** Soundness of base validation: a climb that ends at the root of a tree started at the node its
    path names, or two different node lists with the same hash are in plain sight: one assembled by
    the validation, the other hashed when the tree was built. */
module Soundness {
  import opened Outcome
  import opened Powers
  import opened Rows
  import opened Proofs
  import opened Paths

  /** How many turns the validation loop takes from lemma index i on. */
  ghost function Steps(size: nat, i: nat, b: nat): nat
    requires b >= 2
    decreases size - i
  {
    if i + 1 >= size then 0 else 1 + Steps(size, i + (b - 1), b)
  }

  /** A path read as a number with base-b digits, least significant first: the index it names. */
  ghost function Decode(b: nat, path: seq<nat>, p: nat, m: nat): nat
    requires p + m <= |path|
    decreases m
  {
    if m == 0 then 0 else Decode(b, path, p + 1, m - 1) * b + path[p]
  }

  /** `ns` is one of the node lists the climb assembles and hashes. */
  ghost predicate Assembled<E>(node: NodeHash<E>, b: nat, hashes: seq<E>, path: seq<nat>, x: E, i: nat, p: nat,
                               ns: seq<E>)
    requires b >= 2 && i >= 1
    decreases |hashes| - i
  {
    && i + 1 < |hashes| && p < |path|
    && match Assemble(hashes[i..], b, path[p], x)
       case Ok(Some(ms)) => ns == ms || Assembled(node, b, hashes, path, node(ms, i - 1), i + (b - 1), p + 1, ns)
       case _ => false
  }

  /** The k-th group of row l: a node list hashed by the build. */
  ghost function GroupAt<E>(node: NodeHash<E>, b: nat, leaves: seq<E>, h: nat, l: nat, k: nat): seq<E>
    requires Perfect(b, leaves, h) && l < h && k < Pow(b, h - l - 1)
  {
    RowStep(node, b, leaves, h, l, k);
    Row(node, b, leaves, l)[k * b..k * b + b]
  }

  ghost predicate Built<E>(node: NodeHash<E>, b: nat, leaves: seq<E>, h: nat, ms: seq<E>)
    requires Perfect(b, leaves, h)
  {
    exists l: nat, k: nat :: l < h && k < Pow(b, h - l - 1) && ms == GroupAt(node, b, leaves, h, l, k)
  }

  /** Two different node lists with the same hash. */
  ghost predicate Clash<E>(node: NodeHash<E>, ns: seq<E>, ms: seq<E>) {
    ns != ms && node(ns, 0) == node(ms, 0)
  }

  ghost predicate Collision<E(!new)>(node: NodeHash<E>, b: nat, leaves: seq<E>, h: nat,
                                     hashes: seq<E>, path: seq<nat>, x: E, i: nat, p: nat)
    requires Perfect(b, leaves, h) && i >= 1
  {
    exists ns: seq<E>, ms: seq<E> ::
      Assembled(node, b, hashes, path, x, i, p, ns) && Built(node, b, leaves, h, ms) && Clash(node, ns, ms)
  }

  /** The climb from x ends at the root of the tree. */
  ghost predicate EndsAtRoot<E>(node: NodeHash<E>, b: nat, leaves: seq<E>, h: nat,
                                hashes: seq<E>, path: seq<nat>, x: E, i: nat, p: nat)
    requires Perfect(b, leaves, h) && i >= 1
  {
    Climb(node, b, hashes, path, x, i, p) == Ok(Some(TreeHash(node, b, h, leaves)))
  }

  /** The first step of a climb that ends well. */
  lemma FirstStep<E>(node: NodeHash<E>, b: nat, leaves: seq<E>, h: nat, hashes: seq<E>, path: seq<nat>, x: E, i: nat,
                     p: nat)
    returns (ns: seq<E>)
    requires Perfect(b, leaves, h) && i >= 1 && i + 1 < |hashes|
    requires EndsAtRoot(node, b, leaves, h, hashes, path, x, i, p)
    ensures p < |path| && path[p] < b && |ns| == b && ns[path[p]] == x
    ensures Assemble(hashes[i..], b, path[p], x) == Ok(Some(ns))
    ensures EndsAtRoot(node, b, leaves, h, hashes, path, node(ns, i - 1), i + (b - 1), p + 1)
    ensures Assembled(node, b, hashes, path, x, i, p, ns)
    ensures Steps(|hashes|, i, b) == 1 + Steps(|hashes|, i + (b - 1), b)
  {
    ns := Assemble(hashes[i..], b, path[p], x).value.value;
  }

  /** Widening a collision found further up the climb. */
  lemma CollisionAbove<E(!new)>(node: NodeHash<E>, b: nat, leaves: seq<E>, h: nat,
                                hashes: seq<E>, path: seq<nat>, x: E, i: nat, p: nat, ns: seq<E>)
    requires Perfect(b, leaves, h) && i >= 1 && i + 1 < |hashes| && p < |path|
    requires Assemble(hashes[i..], b, path[p], x) == Ok(Some(ns))
    requires Collision(node, b, leaves, h, hashes, path, node(ns, i - 1), i + (b - 1), p + 1)
    ensures Collision(node, b, leaves, h, hashes, path, x, i, p)
  {}

  /** x is the node that m digits of the path, from digit p on, name m rows below the root. */
  ghost predicate Lands<E>(node: NodeHash<E>, b: nat, leaves: seq<E>, h: nat, path: seq<nat>, x: E, p: nat, m: nat)
    requires Perfect(b, leaves, h) && m <= h
  {
    && p + m <= |path| && Decode(b, path, p, m) < Pow(b, m)
    && |Row(node, b, leaves, h - m)| == Pow(b, m)
    && x == Row(node, b, leaves, h - m)[Decode(b, path, p, m)]
  }

  /** Every step that is inside the tree leads back to a child of the node above. */
  lemma {:induction false} ClimbSound<E(!new)>(
    node: NodeHash<E>, b: nat, leaves: seq<E>, h: nat, hashes: seq<E>, path: seq<nat>, x: E, i: nat, p: nat)
    requires Perfect(b, leaves, h) && HeightFree(node) && i >= 1
    requires EndsAtRoot(node, b, leaves, h, hashes, path, x, i, p)
    requires Steps(|hashes|, i, b) <= h && p <= |path|
    ensures || Collision(node, b, leaves, h, hashes, path, x, i, p)
            || Lands(node, b, leaves, h, path, x, p, Steps(|hashes|, i, b))
    decreases |hashes| - i
  {
    if i + 1 >= |hashes| {
      RootIsTreeHash(node, b, leaves, h);
    } else {
      var ns := FirstStep(node, b, leaves, h, hashes, path, x, i, p);
      var m := Steps(|hashes|, i, b);
      ClimbSound(node, b, leaves, h, hashes, path, node(ns, i - 1), i + (b - 1), p + 1);
      if Collision(node, b, leaves, h, hashes, path, node(ns, i - 1), i + (b - 1), p + 1) {
        CollisionAbove(node, b, leaves, h, hashes, path, x, i, p, ns);
      } else {
        var group := LandsBelow(node, b, leaves, h, path, x, p, m, ns, i - 1);
        if ns != group {
          assert Clash(node, ns, group);
        }
      }
    }
  }

  /** One step down from where a list of nodes hashes to. */
  lemma LandsBelow<E(!new)>(node: NodeHash<E>, b: nat, leaves: seq<E>, h: nat, path: seq<nat>, x: E, p: nat, m: nat,
                            ns: seq<E>, height: nat)
    returns (group: seq<E>)
    requires Perfect(b, leaves, h) && HeightFree(node) && 0 < m <= h
    requires p < |path| && path[p] < b == |ns| && ns[path[p]] == x
    requires Lands(node, b, leaves, h, path, node(ns, height), p + 1, m - 1)
    ensures Built(node, b, leaves, h, group) && node(ns, 0) == node(group, 0)
    ensures ns == group ==> Lands(node, b, leaves, h, path, x, p, m)
  {
    var k := Decode(b, path, p + 1, m - 1);
    ChildOf(node, b, leaves, h, h - m, k, ns, height, path[p]);
    group := GroupAt(node, b, leaves, h, h - m, k);
  }

  /** A list that hashes like node k of the row above is its group, or clashes with it. */
  lemma ChildOf<E(!new)>(node: NodeHash<E>, b: nat, leaves: seq<E>, h: nat, l: nat, k: nat, ns: seq<E>,
                         height: nat, c: nat)
    requires Perfect(b, leaves, h) && HeightFree(node) && l < h && k < Pow(b, h - l - 1) && c < b == |ns|
    requires |Row(node, b, leaves, l + 1)| == Pow(b, h - l - 1) && node(ns, height) == Row(node, b, leaves, l + 1)[k]
    ensures node(ns, 0) == node(GroupAt(node, b, leaves, h, l, k), 0)
    ensures Built(node, b, leaves, h, GroupAt(node, b, leaves, h, l, k))
    ensures k * b + c < Pow(b, h - l) == |Row(node, b, leaves, l)|
    ensures ns == GroupAt(node, b, leaves, h, l, k) ==> ns[c] == Row(node, b, leaves, l)[k * b + c]
  {
    RowStep(node, b, leaves, h, l, k);
  }

  /** The path of the proof for leaf i names leaf i. */
  lemma {:induction false} PathNamesLeaf(b: nat, h: nat, l: nat, j: nat, path: seq<nat>, p: nat)
    requires b >= 2 && l <= h && j < Pow(b, h - l) && p <= |path| && path[p..] == PathUpTo(b, l, h, j)
    ensures p + (h - l) == |path| && Decode(b, path, p, h - l) == j
    decreases h - l
  {
    if l < h {
      QuotRem(j, b);
      PowStep(b, h - l - 1);
      ParentFits(j, b, Pow(b, h - l - 1));
      assert path[p..][0] == path[p] && path[p..][1..] == path[p + 1..];
      PathNamesLeaf(b, h, l + 1, Quot(j, b), path, p + 1);
    }
  }

  // ---------- the lemmas that the constructor accepts ----------

  /** A lemma of the length that `Proof::new` insists on takes one step for each entry of its path. */
  lemma {:induction false} StepsOfStride(b: nat, i: nat, n: nat)
    requires b >= 2
    ensures Steps(i + 1 + Stride(b, n), i, b) == n
    decreases n
  {
    if n > 0 { StepsOfStride(b, i + (b - 1), n - 1); }
  }

  /** Neither the lemma nor the path runs out on the way. */
  lemma {:induction false} ClimbGetsThrough<E>(node: NodeHash<E>, b: nat, hashes: seq<E>, path: seq<nat>, x: E,
                                               i: nat, p: nat)
    requires b >= 2 && i >= 1 && p <= |path| && |hashes| == i + 1 + Stride(b, |path| - p)
    ensures Climb(node, b, hashes, path, x, i, p).Ok?
    ensures Climb(node, b, hashes, path, x, i, p) == Ok(None) <==> exists k: nat :: p <= k < |path| && path[k] >= b
    decreases |path| - p
  {
    if p < |path| {
      match Assemble(hashes[i..], b, path[p], x)
      case Ok(Some(ns)) => ClimbGetsThrough(node, b, hashes, path, node(ns, i - 1), i + (b - 1), p + 1);
      case _ =>
    }
  }

  /** What `Proof::new` promises of a base proof it accepts: validation takes one step for each entry of
      the path and always reaches a verdict, never a panic; and a path entry that is no position in a
      group makes the verdict negative. */
  lemma AcceptedByConstructor<E>(node: NodeHash<E>, b: nat, hashes: seq<E>, path: seq<nat>)
    requires b >= 2 && NewProof(b, 0, 0, None, hashes, path).Ok?
    ensures path != [] && Steps(|hashes|, 1, b) == |path|
    ensures var verdict := Validate(node, b, NewProof(b, 0, 0, None, hashes, path).value);
            verdict.Ok? && (verdict.value ==> forall k: nat | k < |path| :: path[k] < b)
  {
    StrideProduct(b, |path|);
    StepsOfStride(b, 1, |path|);
    ClimbGetsThrough(node, b, hashes, path, hashes[0], 1, 0);
  }
}
