/** Inclusion proofs and their validation (src/proof.rs). A base proof lists, row by row, the
    siblings met on the way from a leaf to the root; compound proofs nest a proof of the tree
    below. `Validate` is the specification; the methods below it are the loops of the source. */
module Proofs {
  import opened Outcome
  import opened Shape
  import opened Rows

  datatype Proof<E> = Proof(sub: Option<Proof<E>>, topLayerNodes: nat, subTreeLayerNodes: nat,
                            hashes: seq<E>, path: seq<nat>)

  /** `Proof::new`: only a base proof has its lemma length checked. */
  function NewProof<E>(b: nat, top: nat, sub: nat, inner: Option<Proof<E>>, hashes: seq<E>, path: seq<nat>)
    : Result<Proof<E>>
    requires b >= 1
  {
    if top == 0 && sub == 0 && (|hashes| <= 2 || |hashes| != ProofLemmaLen(|path| + 1, b)) then Err(Rejected)
    else Ok(Proof(inner, top, sub, hashes, path))
  }

  /** The node list of one validation step: `arity` places, the running hash at `pos`, the others
      taken in order from `rest`. `None` stands for the early `Ok(false)` on a position out of range. */
  function Assemble<E>(rest: seq<E>, arity: nat, pos: nat, h: E): Result<Option<seq<E>>>
    requires arity >= 1
  {
    if pos < arity then
      if arity - 1 <= |rest| then Ok(Some(rest[..pos] + [h] + rest[pos..arity - 1])) else Err(Panicked)
    else
      if arity <= |rest| then Ok(None) else Err(Panicked)
  }

  /** The climb of a base proof from the running hash `h` at lemma index `i` and path index `p`. */
  function Climb<E>(node: NodeHash<E>, b: nat, hashes: seq<E>, path: seq<nat>, h: E, i: nat, p: nat): Result<Option<E>>
    requires b >= 2 && i >= 1
    decreases |hashes| - i
  {
    if i + 1 >= |hashes| then Ok(Some(h))
    else if p >= |path| then Err(Panicked)
    else match Assemble(hashes[i..], b, path[p], h)
      case Err(why) => Err(why)
      case Ok(None) => Ok(None)
      case Ok(Some(nodes)) => Climb(node, b, hashes, path, node(nodes, i - 1), i + (b - 1), p + 1)
  }

  /** `Proof::validate`. */
  function Validate<E(==)>(node: NodeHash<E>, b: nat, proof: Proof<E>): Result<bool>
    requires b >= 2
    decreases proof, 1
  {
    if proof.topLayerNodes > 0 then
      if proof.sub.None? then Err(Rejected) else ValidateLayer(node, b, proof, proof.topLayerNodes)
    else if proof.subTreeLayerNodes > 0 then
      if proof.sub.None? then Err(Rejected) else ValidateLayer(node, b, proof, proof.subTreeLayerNodes)
    else if proof.sub.Some? then Err(Rejected)
    else if |proof.hashes| < 2 then Ok(false)
    else match Climb(node, b, proof.hashes, proof.path, proof.hashes[0], 1, 0)
      case Err(why) => Err(why)
      case Ok(None) => Ok(false)
      case Ok(Some(h)) => Ok(h == proof.hashes[|proof.hashes| - 1])
  }

  /** `validate_sub_tree_proof`. */
  function ValidateLayer<E(==)>(node: NodeHash<E>, b: nat, proof: Proof<E>, arity: nat): Result<bool>
    requires b >= 2 && arity >= 1 && proof.sub.Some?
    decreases proof, 0
  {
    var inner := proof.sub.value;
    match Validate(node, b, inner)
    case Err(why) => Err(why)
    case Ok(false) => Ok(false)
    case Ok(true) =>
      if proof.path == [] || inner.hashes == [] then Err(Panicked)
      else if proof.path[0] < arity && proof.subTreeLayerNodes == 0 then Err(Panicked)
      else match Assemble(proof.hashes, arity, proof.path[0], inner.hashes[|inner.hashes| - 1])
        case Err(why) => Err(why)
        case Ok(None) => Ok(false)
        case Ok(Some(nodes)) =>
          if proof.hashes == [] then Err(Panicked)
          else Ok(node(nodes, 0) == proof.hashes[|proof.hashes| - 1])
  }

  /** What is wrong with a proof that is refused or panics before any hash is compared: a layer without a proof
      inside, a base proof with one, a lemma too short for a root; a layer passes on whatever its inner proof
      comes to, unless that is accepted, and then needs a path. */
  lemma MalformedProofs<E>(node: NodeHash<E>, b: nat, p: Proof<E>)
    requires b >= 2
    ensures var layered := p.topLayerNodes > 0 || p.subTreeLayerNodes > 0;
            var r := Validate(node, b, p);
            && (layered != p.sub.Some? ==> r == Err(Rejected))
            && (!layered && p.sub.None? && |p.hashes| < 2 ==> r == Ok(false))
            && (!layered && p.sub.None? && |p.hashes| > 2 && p.path == [] ==> r == Err(Panicked))
            && (layered && p.sub.Some? && Validate(node, b, p.sub.value) != Ok(true) ==>
                  r == Validate(node, b, p.sub.value))
            && (layered && p.sub.Some? && Validate(node, b, p.sub.value) == Ok(true) && p.path == [] ==>
                  r == Err(Panicked))
  {
    hide Assemble;
  }

  // ---------- the loops ----------

  /** The inner loop over the places of one step. */
  method AssembleNodes<E>(rest: seq<E>, arity: nat, pos: nat, h: E) returns (r: Result<Option<seq<E>>>)
    requires arity >= 1
    ensures r == Assemble(rest, arity, pos, h)
  {
    var nodes: seq<E>, cur := [], 0;
    for j := 0 to arity
      invariant cur == (if pos < j then j - 1 else j) && cur <= |rest|
      invariant nodes == if pos < j then rest[..pos] + [h] + rest[pos..cur] else rest[..cur]
    {
      if j == pos {
        nodes := nodes + [h];
      } else {
        if cur >= |rest| {
          return Err(Panicked);
        }
        nodes := nodes + [rest[cur]];
        cur := cur + 1;
      }
    }
    if cur != arity - 1 {
      return Ok(None);
    }
    return Ok(Some(nodes));
  }

  /** The loop of `validate` on a base proof. */
  method ClimbProof<E>(node: NodeHash<E>, b: nat, hashes: seq<E>, path: seq<nat>) returns (r: Result<Option<E>>)
    requires b >= 2 && |hashes| >= 2
    ensures r == Climb(node, b, hashes, path, hashes[0], 1, 0)
  {
    var h, i, p := hashes[0], 1, 0;
    while i < |hashes| - 1
      invariant 1 <= i && 0 <= p
      invariant Climb(node, b, hashes, path, h, i, p) == Climb(node, b, hashes, path, hashes[0], 1, 0)
      decreases |hashes| - i
    {
      if p >= |path| {
        return Err(Panicked);
      }
      var nodes := AssembleNodes(hashes[i..], b, path[p], h);
      if nodes.Err? {
        return Err(nodes.why);
      }
      if nodes.value.None? {
        return Ok(None);
      }
      h := node(nodes.value.value, i - 1);
      i, p := i + (b - 1), p + 1;
    }
    return Ok(Some(h));
  }

  /** `Proof::validate`, with its recursion into nested proofs. Arity 1 makes the stride of the loop
      zero and is excluded. */
  method ValidateProof<E(==)>(node: NodeHash<E>, b: nat, proof: Proof<E>) returns (r: Result<bool>)
    requires b >= 2
    ensures r == Validate(node, b, proof)
    decreases proof
  {
    var arity := if proof.topLayerNodes > 0 then proof.topLayerNodes else proof.subTreeLayerNodes;
    if arity > 0 {
      if proof.sub.None? {
        return Err(Rejected);
      }
      var inner := proof.sub.value;
      var valid := ValidateProof(node, b, inner);
      if valid != Ok(true) {
        return valid;
      }
      if proof.path == [] || inner.hashes == [] || (proof.path[0] < arity && proof.subTreeLayerNodes == 0) {
        return Err(Panicked);
      }
      var nodes := AssembleNodes(proof.hashes, arity, proof.path[0], inner.hashes[|inner.hashes| - 1]);
      if nodes.Err? {
        return Err(nodes.why);
      }
      if nodes.value.None? {
        return Ok(false);
      }
      if proof.hashes == [] {
        return Err(Panicked);
      }
      return Ok(node(nodes.value.value, 0) == proof.hashes[|proof.hashes| - 1]);
    }
    if proof.sub.Some? {
      return Err(Rejected);
    }
    if |proof.hashes| < 2 {
      return Ok(false);
    }
    var top := ClimbProof(node, b, proof.hashes, proof.path);
    if top.Err? {
      return Err(top.why);
    }
    if top.value.None? {
      return Ok(false);
    }
    return Ok(top.value.value == proof.hashes[|proof.hashes| - 1]);
  }
}
